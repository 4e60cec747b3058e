/** Listing several folders at once: one numbering of all their items, filled in blocks by
    whichever threads are free. */
module Listing {
  import opened BlockSharing

  datatype Folder = Folder(path: string, names: seq<string>)

  // An item's path and name; the default item before it is built.
  datatype Item = None | Item(path: string, name: string)

  const BLOCK_SIZE := 256
  const LARGE_FOLDER := 20000

  function PathBase(folder: Folder): string {
    if folder.path != "" && folder.path[|folder.path| - 1] == '/' then folder.path else folder.path + "/"
  }

  function ItemOf(folder: Folder, k: nat): Item
    requires k < |folder.names|
  {
    Item(PathBase(folder) + folder.names[k], folder.names[k])
  }

  // The listing in order: the items of each folder after those of the folders before it.
  function Listed(folders: seq<Folder>): seq<Item> {
    if folders == [] then []
    else
      var last := folders[|folders| - 1];
      Listed(folders[..|folders| - 1]) + seq(|last.names|, k requires 0 <= k < |last.names| => ItemOf(last, k))
  }

  // How many items the first n folders have.
  function ItemsBefore(folders: seq<Folder>, n: nat): nat
    requires n <= |folders|
  {
    if n == 0 then 0 else ItemsBefore(folders, n - 1) + |folders[n - 1].names|
  }

  /** Every name of a folder is listed after all items of the folders before it, with its path below
      the folder's. */
  lemma ListedAt(folders: seq<Folder>, f: nat, k: nat)
    requires f < |folders| && k < |folders[f].names|
    ensures |Listed(folders)| == ItemsBefore(folders, |folders|)
    ensures ItemsBefore(folders, f) + k < |Listed(folders)|
    ensures var path, name := folders[f].path, folders[f].names[k];
            var slash := if path != "" && path[|path| - 1] == '/' then "" else "/";
            Listed(folders)[ItemsBefore(folders, f) + k] == Item(path + slash + name, name)
  {
    ListedCount(folders);
    ListedItem(folders, f, k);
    hide Listed, ItemsBefore;
    var path := folders[f].path;
    assert path + "" == path;
  }

  lemma {:induction false} ListedItem(folders: seq<Folder>, f: nat, k: nat)
    requires f < |folders| && k < |folders[f].names|
    ensures ItemsBefore(folders, f) + k < |Listed(folders)|
    ensures Listed(folders)[ItemsBefore(folders, f) + k] == ItemOf(folders[f], k)
    decreases |folders|
  {
    hide ItemOf;
    var last := |folders| - 1;
    var before := folders[..last];
    CountBefore(before, folders, f);
    if f < last {
      ListedItem(before, f, k);
    } else {
      ListedCount(before);
    }
  }

  lemma {:induction false} CountBefore(before: seq<Folder>, folders: seq<Folder>, n: nat)
    requires n <= |before| < |folders| && before == folders[..|before|]
    ensures ItemsBefore(before, n) == ItemsBefore(folders, n)
  {
    if n > 0 {
      CountBefore(before, folders, n - 1);
    }
  }

  lemma {:induction false} ListedCount(folders: seq<Folder>)
    ensures |Listed(folders)| == ItemsBefore(folders, |folders|)
    decreases |folders|
  {
    if folders != [] {
      var before := folders[..|folders| - 1];
      ListedCount(before);
      CountBefore(before, folders, |before|);
    }
  }

  // The index of the first item of every folder.
  ghost predicate Starting(starts: seq<nat>, folders: seq<Folder>) {
    && |starts| == |folders|
    && forall k :: 0 <= k < |folders| ==> starts[k] == |Listed(folders[..k])|
  }

  // The folder whose start is the last one up to the index.
  ghost predicate Located(starts: seq<nat>, index: nat, k: nat) {
    && k < |starts| && starts[k] <= index
    && (k + 1 < |starts| ==> index < starts[k + 1])
  }

  lemma {:induction false} ListedPrefix(folders: seq<Folder>, k: nat)
    requires k <= |folders|
    ensures Listed(folders[..k]) <= Listed(folders)
    decreases |folders|
  {
    if k == |folders| {
      assert folders[..k] == folders;
    } else {
      var rest := folders[..|folders| - 1];
      ListedPrefix(rest, k);
      assert rest[..k] == folders[..k];
    }
  }

  /** An index of the listing is an item of the folder it is located in, folders without items
      notwithstanding. */
  lemma LocatedIsListed(folders: seq<Folder>, starts: seq<nat>, index: nat, k: nat)
    requires Starting(starts, folders) && index < |Listed(folders)| && Located(starts, index, k)
    ensures index - starts[k] < |folders[k].names|
    ensures Listed(folders)[index] == ItemOf(folders[k], index - starts[k])
  {
    var upTo := folders[..k + 1];
    assert upTo[..k] == folders[..k] && upTo[|upTo| - 1] == folders[k];
    ListedPrefix(folders, k + 1);
    if k + 1 == |folders| {
      assert upTo == folders;
    }
    assert Listed(upTo)[index] == Listed(folders)[index];
  }

  // The folder of an index, as std::upper_bound finds it among the starts.
  function Locate(starts: seq<nat>, index: nat): (k: nat)
    requires starts != [] && starts[0] == 0
    ensures k < |starts| && starts[k] <= index
  {
    if starts[|starts| - 1] <= index then |starts| - 1 else Locate(starts[..|starts| - 1], index)
  }

  lemma {:induction false} LocateFinds(starts: seq<nat>, index: nat)
    requires starts != [] && starts[0] == 0
    ensures Located(starts, index, Locate(starts, index))
  {
    var last := |starts| - 1;
    if starts[last] > index {
      LocateFinds(starts[..last], index);
    }
  }

  lemma FirstStart(starts: seq<nat>, folders: seq<Folder>)
    requires Starting(starts, folders)
    ensures |starts| == |folders| && (starts != [] ==> starts[0] == 0)
    ensures starts == [] ==> Listed(folders) == []
  {
    assert folders[..0] == [];
  }

  method Starts(folders: seq<Folder>) returns (starts: seq<nat>, count: nat)
    ensures Starting(starts, folders) && count == |Listed(folders)|
  {
    starts, count := [], 0;
    var k := 0;
    while k < |folders|
      invariant k <= |folders| && Starting(starts, folders[..k]) && count == |Listed(folders[..k])|
    {
      var upTo := folders[..k + 1];
      assert upTo[..k] == folders[..k];
      forall j | 0 <= j < k
        ensures upTo[..j] == folders[..k][..j]
      {
      }
      starts := starts + [count];
      count := count + |folders[k].names|;
      k := k + 1;
    }
    assert folders[..k] == folders;
  }

  /** Whatever threads help and whenever they run, a listing that nothing interrupts is the
      folders' items in order. */
  method List(folders: seq<Folder>, ideal: nat) returns (ok: bool, listing: seq<Item>)
    ensures ok ==> listing == Listed(folders)
  {
    hide Starting, Located, Listed, Locate, Blocks, BlockHelpers;
    var starts, count := Starts(folders);
    FirstStart(starts, folders);
    var items := new Item[count](_ => None);
    var build := (i: nat) =>
      if starts != [] && starts[0] == 0 && |starts| == |folders| then
        var k := Locate(starts, i);
        if i - starts[k] < |folders[k].names| then ItemOf(folders[k], i - starts[k]) else None
      else None;
    var sharing := new Sharing(items, BLOCK_SIZE, build);
    var blocks := Blocks(count, BLOCK_SIZE);
    var helpers := if count >= LARGE_FOLDER then BlockHelpers(ideal, blocks) else 0;
    var started;
    ok, started := sharing.RunOnFreeThreads(helpers);
    listing := items[..];
    if ok {
      forall i: nat | i < count
        ensures items[i] == Listed(folders)[i]
      {
        LocateFinds(starts, i);
        LocatedIsListed(folders, starts, i, Locate(starts, i));
      }
    }
  }

  // Half the processors, this thread included, and no more than there are blocks.
  function BlockHelpers(ideal: nat, blocks: nat): (helpers: nat)
    ensures blocks > 0 ==> helpers < blocks
    ensures helpers == 0 || 2 * (helpers + 1) <= ideal
    ensures helpers + 1 < blocks ==> ideal < 2 * (helpers + 2)
  {
    var spare: int := ideal / 2 - 1;
    var most := if spare < blocks - 1 then spare else blocks - 1;
    if most < 0 then 0 else most
  }
}
