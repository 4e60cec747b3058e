/** Inheritance between MIME types: aliases, the parents a type names or has implicitly, and
    the search for an ancestor in a graph that may have cycles. */
module TypeGraph {

  const DEFAULT_TYPE := "application/octet-stream"

  datatype Database = Database(types: set<string>, aliases: map<string, string>, parents: map<string, seq<string>>) {

    // An alias stands for its type; a name that is neither has no canonical form.
    function CanonicalName(name: string): string {
      var t := if name in aliases then aliases[name] else name;
      if t in types then t else ""
    }

    // An unknown type stands for itself.
    function Resolve(name: string): string {
      if CanonicalName(name) == "" then name else CanonicalName(name)
    }

    function ParentsOf(name: string): seq<string> {
      if name in parents && parents[name] != [] then parents[name]
      else
        var group := GroupOf(name);
        if group == "text" && name != "text/plain" then ["text/plain"]
        else if group !in {"inode", "all", "fonts", "print", "uri"} && name != DEFAULT_TYPE then [DEFAULT_TYPE]
        else []
    }

    // The parents as the search meets them.
    predicate IsParent(child: string, parent: string) {
      exists k :: 0 <= k < |ParentsOf(child)| && Resolve(ParentsOf(child)[k]) == parent
    }

    // Every step of the path goes to a parent.
    ghost predicate IsPath(path: seq<string>) {
      forall k :: 0 <= k < |path| - 1 ==> IsParent(path[k], path[k + 1])
    }

    // The reflexive and transitive closure of being a parent.
    ghost predicate Descends(from: string, to: string) {
      exists path :: path != [] && path[0] == from && path[|path| - 1] == to && IsPath(path)
    }

    lemma DescendsReflexive(name: string)
      ensures Descends(name, name)
    {
      assert IsPath([name]);
    }

    lemma DescendsStep(from: string, via: string, to: string)
      requires Descends(from, via) && IsParent(via, to)
      ensures Descends(from, to)
    {
      hide IsParent;
      var path :| path != [] && path[0] == from && path[|path| - 1] == via && IsPath(path);
      var longer := path + [to];
      assert IsPath(longer);
      assert longer[0] == from && longer[|longer| - 1] == to;
    }

    // A set with all parents of its members holds everything they descend from.
    lemma {:induction false} ClosedUnderParents(closed: set<string>, path: seq<string>, n: nat)
      requires forall child, parent :: child in closed && IsParent(child, parent) ==> parent in closed
      requires n < |path| && path[0] in closed && IsPath(path)
      ensures path[n] in closed
    {
      if n > 0 {
        ClosedUnderParents(closed, path, n - 1);
        assert IsParent(path[n - 1], path[n - 1 + 1]);
      }
    }

    // Every name the search can meet besides its start.
    ghost function Names(): set<string> {
      (set key, k | key in parents && 0 <= k < |parents[key]| :: Resolve(parents[key][k]))
      + {Resolve("text/plain"), Resolve(DEFAULT_TYPE)}
    }

    lemma ParentsAreNames(child: string, parent: string)
      requires IsParent(child, parent)
      ensures parent in Names()
    {
    }

    // A name that is an alias of a known type, which has a name.
    predicate IsAlias(name: string) {
      name in aliases && aliases[name] in types && aliases[name] != ""
    }

    /** An alias of a known type stands for that type, and any other name for itself. Resolving
        again changes nothing, except just where the type is in turn an alias of another one. */
    lemma ResolvedOnce(name: string)
      ensures Resolve(name) == if IsAlias(name) then aliases[name] else name
      ensures Resolve(Resolve(name)) == Resolve(name) <==>
              !(IsAlias(name) && IsAlias(aliases[name]) && aliases[aliases[name]] != aliases[name])
    {
    }

    // The canonical name, or the name itself when the database does not know it.
    method Known(name: string) returns (known: string)
      ensures known == Resolve(name)
    {
      known := CanonicalName(name);
      if known == "" {
        known := name;
      }
    }

    /** The search ends on every graph, with cycles or without, and finds the ancestor just
        when the type descends from it, aliases resolved on both sides and at every step. */
    method Inherits(name: string, ancestor: string) returns (inherits: bool)
      ensures inherits <==> Descends(Resolve(name), Resolve(ancestor))
    {
      hide ParentsOf, Resolve, IsParent, Descends, Names;
      var start := Known(name);
      var wanted := Known(ancestor);
      var pending := [start];
      var seen: set<string> := {};
      ghost var all := Names() + {start};
      DescendsReflexive(start);
      while pending != []
        invariant forall x :: x in pending ==> x in all && Descends(start, x)
        invariant seen <= all && wanted !in seen
        invariant start in seen || start in pending
        invariant forall x, y :: x in seen && IsParent(x, y) ==> y in seen || y in pending
        decreases |all - seen|, |pending|
      {
        var current := pending[|pending| - 1];
        ghost var was := pending;
        pending := pending[..|pending| - 1];
        assert was == pending + [current];
        if current == wanted {
          return true;
        }
        if current in seen {
          continue;
        }
        assert current in was;
        assert all - (seen + {current}) < all - seen;
        SmallerSet(all - (seen + {current}), all - seen);
        seen := seen + {current};
        var found := ParentNames(current);
        forall y | y in found
          ensures y in all && Descends(start, y)
        {
          ParentsAreNames(current, y);
          DescendsStep(start, current, y);
        }
        pending := pending + found;
      }
      Unreached(seen, start, wanted);
      return false;
    }

    // A name that is no alias, without parents that are listed for it.
    predicate ListsNone(name: string) {
      name !in aliases && !(name in parents && parents[name] != [])
    }

    lemma ParentDescends(child: string, parent: string)
      requires IsParent(child, parent)
      ensures Descends(child, parent)
    {
      DescendsReflexive(child);
      DescendsStep(child, child, parent);
    }

    /** A type inherits every parent that is listed for it. */
    lemma ListedInherits(name: string, k: nat)
      requires name in parents && k < |parents[name]|
      ensures Descends(name, Resolve(parents[name][k]))
    {
      assert ParentsOf(name)[k] == parents[name][k];
      ParentDescends(name, Resolve(parents[name][k]));
    }

    /** A type that has parents listed has no others. */
    lemma ListedAreAll(name: string, parent: string)
      requires name in parents && parents[name] != []
      ensures IsParent(name, parent) <==> exists k :: 0 <= k < |parents[name]| && Resolve(parents[name][k]) == parent
    {
      assert ParentsOf(name) == parents[name];
    }

    /** A text inherits plain text where nothing else is listed for it. */
    lemma TextInherits(name: string)
      requires ListsNone(name) && InGroup(name, "text")
      ensures Descends(Resolve(name), Resolve("text/plain"))
    {
      GroupIs(name, "text");
      assert Resolve(name) == name;
      if name == "text/plain" {
        DescendsReflexive(name);
      } else {
        assert ParentsOf(name)[0] == "text/plain";
        ParentDescends(name, Resolve("text/plain"));
      }
    }

    /** What is a stream of bytes inherits that type where nothing else is listed for it: plain
        text, and all types but texts and those of the groups that stand for no contents. */
    lemma BytesInherit(name: string)
      requires ListsNone(name)
      requires name == "text/plain"
               || forall group :: group in {"text", "inode", "all", "fonts", "print", "uri"} ==> !InGroup(name, group)
      ensures Descends(Resolve(name), Resolve("application/octet-stream"))
    {
      GroupIs(name, GroupOf(name));
      assert Resolve(name) == name;
      if name == "application/octet-stream" {
        DescendsReflexive(name);
      } else {
        if name == "text/plain" {
          GroupIs(name, "text");
        }
        assert ParentsOf(name)[0] == "application/octet-stream";
        ParentDescends(name, Resolve("application/octet-stream"));
      }
    }

    /** A type of one of those groups, and the type of all bytes, inherits only itself then. */
    lemma NothingInherits(name: string, group: string, ancestor: string)
      requires ListsNone(name)
      requires name == "application/octet-stream"
               || (group in {"inode", "all", "fonts", "print", "uri"} && InGroup(name, group))
      ensures Descends(Resolve(name), ancestor) <==> ancestor == name
    {
      NoParents(name, group);
      hide ParentsOf, Resolve, Descends;
      assert forall parent :: !IsParent(name, parent);
      DescendsReflexive(name);
      if ancestor != name {
        Unreached({name}, name, ancestor);
      }
    }

    lemma NoParents(name: string, group: string)
      requires ListsNone(name)
      requires name == "application/octet-stream"
               || (group in {"inode", "all", "fonts", "print", "uri"} && InGroup(name, group))
      ensures Resolve(name) == name && ParentsOf(name) == []
    {
      if name == "application/octet-stream" {
        BytesGroup();
      } else {
        GroupIs(name, group);
      }
      hide GroupOf, InGroup;
      assert GroupOf(name) != "text";
    }

    method ParentNames(name: string) returns (found: seq<string>)
      ensures forall y :: y in found <==> IsParent(name, y)
    {
      found := [];
      var parents := ParentsOf(name);
      for i := 0 to |parents|
        invariant forall y :: y in found <==> exists k :: 0 <= k < i && Resolve(parents[k]) == y
      {
        found := found + [Resolve(parents[i])];
      }
    }

    lemma Unreached(seen: set<string>, start: string, wanted: string)
      requires forall x, y :: x in seen && IsParent(x, y) ==> y in seen
      requires start in seen && wanted !in seen
      ensures !Descends(start, wanted)
    {
      forall path | path != [] && path[0] == start && IsPath(path)
        ensures path[|path| - 1] != wanted
      {
        ClosedUnderParents(seen, path, |path| - 1);
      }
    }
  }

  // The part of a name before its slash, or all of it.
  function GroupOf(name: string): string {
    if name == "" || name[0] == '/' then "" else [name[0]] + GroupOf(name[1..])
  }

  // The name is that of the group, or goes on with a slash after it.
  predicate InGroup(name: string, group: string) {
    name == group || (|name| > |group| && name[..|group|] == group && name[|group|] == '/')
  }

  lemma {:induction false} GroupIs(name: string, group: string)
    ensures InGroup(name, GroupOf(name)) && '/' !in GroupOf(name)
    ensures InGroup(name, group) && '/' !in group ==> group == GroupOf(name)
    decreases |name|
  {
    if name != "" && name[0] != '/' {
      var rest := name[1..];
      GroupIs(rest, if group == "" then "" else group[1..]);
      assert name == [name[0]] + rest;
      var own := GroupOf(rest);
      assert GroupOf(name)[1..] == own;
      if InGroup(name, group) && '/' !in group && group != "" {
        assert group == [group[0]] + group[1..];
        assert InGroup(rest, group[1..]);
      }
    }
  }

  lemma BytesGroup()
    ensures GroupOf("application/octet-stream") == "application"
  {
    GroupIs("application/octet-stream", "application");
    hide GroupOf;
    assert InGroup("application" + "/octet-stream", "application");
    assert "application" + "/octet-stream" == "application/octet-stream";
  }

  lemma SmallerSet<T>(a: set<T>, b: set<T>)
    requires a < b
    ensures |a| < |b|
  {
    assert b == a + (b - a);
  }
}
