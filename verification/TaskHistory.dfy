/** Undo and redo: the inverse of an operation, the two stacks of inverses, and the rest of an
    undo that was cancelled. Items are told apart by where they are. */
module TaskHistory {
  import opened Options

  datatype Operation = Copy | Move | Link | Delete | Mkdir | Rename | Trash | Restore | EmptyTrash | Size

  // The conflict policy matters only where the task runs; an inverse asks, or fails.
  datatype Request = Request(operation: Operation, sources: seq<string>, destination: string, asks: bool,
      targets: seq<string>)

  // The outputs' sources are kept beside the outputs; a merged output cannot be taken back.
  datatype Result = Result(outputs: seq<string>, outputSources: seq<string>, completed: seq<string>, merged: bool,
      end: End)

  datatype End = Succeeded | Canceled | Failed

  datatype History = Fresh | Undo | Redo

  const MAX_HISTORY := 50

  // A URL into a trash; all others here are local.
  predicate InTrash(url: string) {
    "trash:" <= url
  }

  // The request that takes an operation back as far as it went; none where there is no way.
  function Inverse(request: Request, result: Result): Option<Request> {
    if result.outputs == [] || result.merged then None
    else
      match request.operation
      case Copy | Link | Mkdir | Restore => Some(Request(Operation.Trash, result.outputs, "", false, []))
      case Trash => Some(Request(Operation.Restore, result.outputs, "", true, []))
      case Move | Rename =>
        if (exists k :: 0 <= k < |result.outputSources| && InTrash(result.outputSources[k]))
           || |result.outputSources| != |result.outputs| then None
        else Some(Request(Operation.Move, result.outputs, "", true, result.outputSources))
      case _ => None
  }

  /** There is a way back from what left its outputs unmerged: copies, links, new folders and restored
      items go to the trash, trashed items come back, and moved ones return, except out of a trash. */
  lemma WayBack(request: Request, result: Result)
    ensures
      var back := Inverse(request, result);
      match request.operation
      case Copy | Link | Mkdir | Restore =>
        (back.Some? <==> result.outputs != [] && !result.merged)
        && (back.Some? ==> back.value.operation.Trash? && back.value.sources == result.outputs && !back.value.asks)
      case Trash =>
        (back.Some? <==> result.outputs != [] && !result.merged)
        && (back.Some? ==> back.value.operation.Restore? && back.value.sources == result.outputs && back.value.asks)
      case Move | Rename =>
        (back.Some? <==> result.outputs != [] && !result.merged && |result.outputSources| == |result.outputs|
                         && forall source :: source in result.outputSources ==> !("trash:" <= source))
        && (back.Some? ==> back.value.operation.Move? && back.value.sources == result.outputs
                           && back.value.targets == result.outputSources && back.value.asks)
      case Delete | EmptyTrash | Size => back.None?
  {
    var sources := result.outputSources;
    assert (exists k :: 0 <= k < |sources| && InTrash(sources[k])) <==>
           exists source :: source in sources && "trash:" <= source by {
      if source :| source in sources && "trash:" <= source {
        var k :| 0 <= k < |sources| && sources[k] == source;
        assert InTrash(sources[k]);
      }
      if k :| 0 <= k < |sources| && InTrash(sources[k]) {
        assert sources[k] in sources;
      }
    }
  }

  // ----- What moving back does -----

  type World = map<string, int>

  // Items moved one after the other, each to a place of its own that is free.
  function Moved(w: World, from: seq<string>, to: seq<string>): World
    requires |from| == |to|
    decreases |from|
  {
    if from == [] then w
    else
      var n := |from| - 1;
      var before := Moved(w, from[..n], to[..n]);
      if from[n] in before then (before - {from[n]})[to[n] := before[from[n]]] else before
  }

  predicate Distinct(places: seq<string>) {
    forall i, j :: 0 <= i < j < |places| ==> places[i] != places[j]
  }

  // The items are there, and where they go is free and nowhere else an item comes from.
  ghost predicate CanMove(w: World, from: seq<string>, to: seq<string>) {
    && |from| == |to| && Distinct(from) && Distinct(to)
    && (forall k :: 0 <= k < |from| ==> from[k] in w && to[k] !in w)
  }

  lemma {:induction false} MovedAt(w: World, from: seq<string>, to: seq<string>, place: string)
    requires CanMove(w, from, to)
    ensures place in from ==> place !in Moved(w, from, to)
    ensures place !in from && place !in to ==>
              (place in Moved(w, from, to) <==> place in w) && (place in w ==> Moved(w, from, to)[place] == w[place])
    ensures forall k :: 0 <= k < |from| && to[k] == place ==>
            place in Moved(w, from, to) && Moved(w, from, to)[place] == w[from[k]]
    decreases |from|
  {
    if from != [] {
      var n := |from| - 1;
      var before := Moved(w, from[..n], to[..n]);
      MovedAt(w, from[..n], to[..n], place);
      assert from[n] in before && before[from[n]] == w[from[n]] by {
        MovedAt(w, from[..n], to[..n], from[n]);
        assert from[n] !in from[..n] && from[n] !in to[..n];
      }
      assert Moved(w, from, to) == (before - {from[n]})[to[n] := w[from[n]]];
      assert place in from <==> place in from[..n] || place == from[n];
      assert place in to <==> place in to[..n] || place == to[n];
      forall k | 0 <= k < |from| && to[k] == place
        ensures place in Moved(w, from, to) && Moved(w, from, to)[place] == w[from[k]]
      {
        assert k < n ==> to[..n][k] == place;
      }
    }
  }

  /** Moving everything back, in the same order, gives back the world: undoing a move that
      replaced nothing leaves no trace of it. */
  lemma UndoRestores(w: World, from: seq<string>, to: seq<string>)
    requires CanMove(w, from, to)
    ensures CanMove(Moved(w, from, to), to, from)
    ensures Moved(Moved(w, from, to), to, from) == w
  {
    var moved := Moved(w, from, to);
    forall k | 0 <= k < |from|
      ensures to[k] in moved && from[k] !in moved
    {
      MovedAt(w, from, to, to[k]);
      MovedAt(w, from, to, from[k]);
    }
    var back := Moved(moved, to, from);
    forall place
      ensures place in back <==> place in w
      ensures place in w ==> back[place] == w[place]
    {
      MovedAt(w, from, to, place);
      MovedAt(moved, to, from, place);
      if k :| 0 <= k < |from| && from[k] == place {
        MovedAt(w, from, to, to[k]);
      }
      if k :| 0 <= k < |from| && to[k] == place {
        assert place in to;
      }
    }
    assert back == w;
  }

  /** Run after a move that replaced nothing, the request that takes it back restores the world. */
  lemma TakenBack(w: World, request: Request, result: Result)
    requires request.operation.Move? || request.operation.Rename?
    requires CanMove(w, result.outputSources, result.outputs)
    ensures var back := Inverse(request, result);
            back.Some? ==>
              && |back.value.sources| == |back.value.targets|
              && Moved(Moved(w, result.outputSources, result.outputs), back.value.sources, back.value.targets) == w
  {
    UndoRestores(w, result.outputSources, result.outputs);
  }

  // A move in two stretches.
  lemma {:induction false} MovedInParts(w: World, from: seq<string>, to: seq<string>, k: nat)
    requires |from| == |to| && k <= |from|
    ensures Moved(w, from, to) == Moved(Moved(w, from[..k], to[..k]), from[k..], to[k..])
    decreases |from|
  {
    if k == |from| {
      assert from[..k] == from && to[..k] == to;
    } else {
      var n := |from| - 1;
      MovedInParts(w, from[..n], to[..n], k);
      assert from[..n][..k] == from[..k] && to[..n][..k] == to[..k];
      assert from[k..][..n - k] == from[..n][k..] && to[k..][..n - k] == to[..n][k..];
    }
  }

  // ----- What a cancelled undo keeps -----

  // The request without its first sources.
  function Rest(request: Request, done: nat): Request
    requires done <= |request.sources|
  {
    request.(sources := request.sources[done..],
             targets := if done <= |request.targets| then request.targets[done..] else [])
  }

  // Where a place is first in the list.
  method Find(places: seq<string>, place: string) returns (k: nat)
    ensures k <= |places| && place !in places[..k]
    ensures k < |places| ==> places[k] == place
  {
    k := 0;
    while k < |places| && places[k] != place
      invariant k <= |places| && place !in places[..k]
    {
      k := k + 1;
    }
  }

  /** Taking out what was completed leaves the sources that were not reached, each with its own
      target, even where a source is listed twice. */
  method Remaining(request: Request, completed: seq<string>) returns (remaining: Request)
    requires completed <= request.sources
    requires request.targets == [] || |request.targets| == |request.sources|
    ensures remaining == Rest(request, |completed|)
  {
    remaining := request;
    var done := 0;
    while done < |completed|
      invariant done <= |completed| && remaining == Rest(request, done)
    {
      var found := Find(remaining.sources, completed[done]);
      assert remaining.sources[0] == completed[done];
      assert found == 0;
      remaining := remaining.(sources := remaining.sources[..found] + remaining.sources[found + 1..]);
      if found < |remaining.targets| {
        remaining := remaining.(targets := remaining.targets[..found] + remaining.targets[found + 1..]);
      }
      assert remaining.sources == request.sources[done + 1..];
      assert request.targets != [] ==> remaining.targets == request.targets[done + 1..];
      done := done + 1;
    }
  }

  /** A cancelled undo of a move loses nothing: the part it did can be redone and the rest
      undone, and both together undo all of it. */
  lemma CancelledUndoSplits(w: World, undo: Request, done: nat)
    requires CanMove(w, undo.sources, undo.targets) && done <= |undo.sources|
    ensures var rest := Rest(undo, done);
            var half := Moved(w, undo.sources[..done], undo.targets[..done]);
            && Moved(half, rest.sources, rest.targets) == Moved(w, undo.sources, undo.targets)
            && Moved(half, undo.targets[..done], undo.sources[..done]) == w
  {
    MovedInParts(w, undo.sources, undo.targets, done);
    UndoRestores(w, undo.sources[..done], undo.targets[..done]);
  }

  // ----- The stacks -----

  // The newest entries, if there are too many.
  function Newest(stack: seq<Request>): (kept: seq<Request>)
    ensures |kept| <= MAX_HISTORY
    ensures |stack| <= MAX_HISTORY ==> kept == stack
  {
    if |stack| <= MAX_HISTORY then stack else stack[|stack| - MAX_HISTORY..]
  }

  function WithoutRestores(stack: seq<Request>): (kept: seq<Request>)
    ensures |kept| <= |stack| && forall entry :: entry in kept <==> entry in stack && !entry.operation.Restore?
  {
    if stack == [] then []
    else
      var last := stack[|stack| - 1];
      WithoutRestores(stack[..|stack| - 1]) + if last.operation.Restore? then [] else [last]
  }

  function Pushed(stack: seq<Request>, entry: Option<Request>): seq<Request> {
    if entry.Some? then Newest(stack + [entry.value]) else stack
  }

  /** An entry goes on top, and the oldest of fifty makes room for it. */
  lemma NewestStay(stack: seq<Request>, entry: Request)
    requires |stack| <= 50
    ensures Pushed(stack, Some(entry)) == (if |stack| < 50 then stack else stack[1..]) + [entry]
    ensures Pushed(stack, None) == stack
  {
  }

  // Restores go, entry by entry, and the others stay in their order.
  lemma RestoresGo(stack: seq<Request>, entry: Request)
    ensures WithoutRestores([]) == []
    ensures WithoutRestores(stack + [entry]) ==
            WithoutRestores(stack) + if entry.operation.Restore? then [] else [entry]
  {
    assert (stack + [entry])[..|stack|] == stack;
  }

  // What the stack gains from a cancelled run of one of its entries.
  function Kept(request: Request, result: Result): (kept: seq<Request>)
    requires |result.completed| <= |request.sources|
  {
    if result.end.Canceled? && |result.completed| < |request.sources| then [Rest(request, |result.completed|)] else []
  }

  /** Taking back a move twice moves the same items to the same places again. */
  lemma RedoRepeats(request: Request, result: Result, back: Request, again: Result)
    requires request.operation.Move? || request.operation.Rename?
    requires Inverse(request, result) == Some(back)
    requires again.outputs == back.targets && again.outputSources == back.sources && !again.merged
    ensures var redo := Inverse(back, again);
            if exists k :: 0 <= k < |result.outputs| && InTrash(result.outputs[k]) then redo.None?
            else redo == Some(Request(Operation.Move, result.outputSources, "", true, result.outputs))
  {
  }

  class TaskController {
    var undoable: seq<Request>
    var redoable: seq<Request>
    // The task that runs, one at a time.
    var running: Option<History>

    constructor ()
      ensures Valid() && undoable == [] && redoable == [] && running == None
    {
      undoable, redoable, running := [], [], None;
    }

    // An entry that is being undone or redone has left its stack but may come back to it.
    ghost predicate Valid()
      reads this
    {
      && |undoable| + (if running == Some(Undo) then 1 else 0) <= MAX_HISTORY
      && |redoable| + (if running == Some(Redo) then 1 else 0) <= MAX_HISTORY
    }

    // The user starts something new, and nothing undone before can be redone after it.
    method Submit()
      requires Valid() && running == None
      modifies this`redoable, this`running
      ensures Valid() && redoable == [] && running == Some(Fresh)
    {
      if redoable != [] {
        redoable := [];
      }
      running := Some(Fresh);
    }

    // Takes the newest entry off the stack to run it; the other stack stays.
    method TakeBack(history: History) returns (request: Option<Request>)
      requires Valid() && !history.Fresh? && running == None
      modifies this
      ensures Valid()
      ensures if request.None? then running == None && undoable == old(undoable) && redoable == old(redoable)
              else running == Some(history)
      ensures history.Undo? ==>
                redoable == old(redoable) && old(undoable) == undoable + if request.Some? then [request.value] else []
      ensures history.Redo? ==>
                undoable == old(undoable) && old(redoable) == redoable + if request.Some? then [request.value] else []
      ensures request.None? ==> if history.Undo? then undoable == [] else redoable == []
    {
      var stack := if history.Undo? then undoable else redoable;
      if stack == [] {
        return None;
      }
      request := Some(stack[|stack| - 1]);
      stack := stack[..|stack| - 1];
      if history.Undo? {
        undoable := stack;
      } else {
        redoable := stack;
      }
      running := Some(history);
    }

    // What a cancelled run did not reach, as an entry if there is anything.
    method Leftover(request: Request, result: Result) returns (left: seq<Request>)
      requires result.completed <= request.sources
      requires request.targets == [] || |request.targets| == |request.sources|
      ensures left == Kept(request, result) && |left| <= 1
      ensures left != [] <==> result.end.Canceled? && |result.completed| < |request.sources|
      ensures left != [] ==>
                var done := |result.completed|;
                left[0] == request.(sources := request.sources[done..],
                                    targets := if request.targets == [] then [] else request.targets[done..])
    {
      left := [];
      if result.end.Canceled? {
        var remaining := Remaining(request, result.completed);
        if remaining.sources != [] {
          left := [remaining];
        }
      }
    }

    /** Keeps the inverse of the finished task, on the other stack where the task was one itself,
        and what a cancelled undo or redo did not reach. Emptied items leave both stacks. */
    method Record(request: Request, result: Result)
      requires Valid() && running.Some? && result.completed <= request.sources
      requires request.targets == [] || |request.targets| == |request.sources|
      modifies this
      ensures Valid() && running == None
      ensures var back := Inverse(request, result);
              var history := old(running).value;
              var undone := if history.Undo? then old(undoable) + Kept(request, result)
                  else Pushed(old(undoable), back);
              var redone := if history.Undo? then Pushed(old(redoable), back)
                            else if history.Redo? then old(redoable) + Kept(request, result) else old(redoable);
              if request.operation.EmptyTrash? && result.end.Succeeded?
              then undoable == WithoutRestores(undone) && redoable == WithoutRestores(redone)
              else undoable == undone && redoable == redone
    {
      hide WithoutRestores, Newest, Inverse, Kept;
      var back := Inverse(request, result);
      var history := running.value;
      var left := Leftover(request, result);
      if history.Undo? {
        redoable := Pushed(redoable, back);
        undoable := undoable + left;
      } else {
        undoable := Pushed(undoable, back);
        if history.Redo? {
          redoable := redoable + left;
        }
      }
      if request.operation.EmptyTrash? && result.end.Succeeded? {
        undoable, redoable := WithoutRestores(undoable), WithoutRestores(redoable);
      }
      running := None;
    }
  }
}
