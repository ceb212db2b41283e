/** The undo manager of the customizer script: a linear, optionally bounded
    history of reversible commands with a cursor, a re-entrancy guard and a
    single change observer.

    `History` is the abstract value of a manager and `Added`, `Undone`,
    `Redone`, `Cleared`, `WithLimit` and `WithCallback` are its transitions;
    the class `UndoManager` holds the same state in fields, changes it in
    place with the array calls the source makes, and is proved to follow
    those transitions. The lemmas state what the transitions promise. */
module UndoStack {
  import opened JsArrays

  /** What a command's `undo` or `redo` property holds. A function is modelled by
      the commands its body passes to the manager's `add` while it runs; its
      other side effects are recorded as an `Event` in the trace. */
  datatype Action = NotAFunction | Function(reentrantAdds: seq<Command>)

  /** A value passed to `add`. `Falsy` stands for `undefined`, `null` and the other
      falsy values, which `add` stores like any other but `undo`/`redo` skip. */
  datatype Command = Falsy | Cmd(id: int, undo: Action, redo: Action)

  datatype Step = UndoStep | RedoStep

  /** One invocation of a command's `undo` or `redo` function. */
  datatype Event = Event(id: int, step: Step)

  /** The manager's closure state, plus the number of times the callback has run
      and the trace of command functions invoked. */
  datatype History = History(
    commands: seq<Command>,
    index: int,
    limit: int,
    executing: bool,
    hasCallback: bool,
    notifications: nat,
    trace: seq<Event>)

  /** Calls that the user interface makes on the manager. */
  datatype Call = AddCall(command: Command) | UndoCall | RedoCall | ClearCall
                | SetLimitCall(l: int) | SetCallbackCall(present: bool)

  /** The cursor invariant: -1 means nothing is applied, otherwise it is a
      position in the history. */
  predicate Wellformed(h: History)
  {
    -1 <= h.index < |h.commands|
  }

  /** A manager between calls: well formed and not inside a command's function. */
  predicate Idle(h: History)
  {
    Wellformed(h) && !h.executing
  }

  function Initial(): History
  {
    History([], -1, 0, false, false, 0, [])
  }

  predicate Truthy(c: Command)
  {
    c.Cmd?
  }

  /** JavaScript indexing `commands[i]`: `undefined` outside the array. */
  function At(cs: seq<Command>, i: int): Command
  {
    if 0 <= i < |cs| then cs[i] else Falsy
  }

  /** `execute` calls the action only for a truthy command whose property is a function. */
  predicate Runs(c: Command, step: Step)
  {
    c.Cmd? && (match step
               case UndoStep => c.undo.Function?
               case RedoStep => c.redo.Function?)
  }

  function Reentrant(c: Command, step: Step): seq<Command>
    requires Runs(c, step)
  {
    match step
    case UndoStep => c.undo.reentrantAdds
    case RedoStep => c.redo.reentrantAdds
  }

  /** The events one `execute(c, step)` appends to the trace. */
  function Effect(c: Command, step: Step): seq<Event>
  {
    if Runs(c, step) then [Event(c.id, step)] else []
  }

  /** The notification count after `if (callback) callback()`. */
  function Notify(h: History): nat
  {
    if h.hasCallback then h.notifications + 1 else h.notifications
  }

  /** The newest `n` elements of `t` (all of `t` when it is shorter). */
  function Newest<T>(t: seq<T>, n: nat): (r: seq<T>)
    ensures |r| == if |t| <= n then |t| else n
  {
    if |t| <= n then t else t[|t| - n..]
  }

  /** What eviction leaves of `t` for a given limit: everything when the limit is
      0, the newest `limit` commands when it is positive, and `t` without its
      `-limit` oldest commands when it is negative (the limit test is
      JavaScript truthiness, so a negative limit evicts on every add). */
  function Retained(t: seq<Command>, limit: int): seq<Command>
  {
    if limit == 0 then t
    else if limit > 0 then Newest(t, limit)
    else t[if -limit < |t| then -limit else |t|..]
  }

  /** `add(c)`: ignored while a command's function runs; otherwise the
      commands above the cursor are dropped, `c` is appended, the oldest
      commands are evicted as the limit says, the cursor moves to the last
      command and the observer is notified. */
  function Added(h: History, c: Command): History
    requires Wellformed(h)
  {
    if h.executing then h
    else
      var cs := Retained(h.commands[..h.index + 1] + [c], h.limit);
      h.(commands := cs, index := |cs| - 1, notifications := Notify(h))
  }

  /** A series of `add` calls, in order. */
  function AddAll(h: History, cs: seq<Command>): (r: History)
    requires Wellformed(h)
    ensures Wellformed(r) && r.executing == h.executing && r.limit == h.limit
    decreases |cs|
  {
    if cs == [] then h else AddAll(Added(h, cs[0]), cs[1..])
  }

  /** `execute(c, step)`: when the command's property is a function, the guard is
      raised, the function runs (its event is recorded; the `add` calls it makes
      meet the raised guard and change nothing, as `UndoManager.Execute`
      proves) and the guard is lowered. */
  function Executed(h: History, c: Command, step: Step): History
  {
    if Runs(c, step) then h.(executing := false, trace := h.trace + [Event(c.id, step)]) else h
  }

  /** `undo()`: see `UndoneProperties`. */
  function Undone(h: History): History
  {
    var c := At(h.commands, h.index);
    if !Truthy(c) then h
    else
      var e := Executed(h, c, UndoStep);
      e.(index := e.index - 1, notifications := Notify(e))
  }

  /** `redo()`: see `RedoneProperties`. */
  function Redone(h: History): History
  {
    var c := At(h.commands, h.index + 1);
    if !Truthy(c) then h
    else
      var e := Executed(h, c, RedoStep);
      e.(index := e.index + 1, notifications := Notify(e))
  }

  /** `clear()`: see `ClearedProperties`. */
  function Cleared(h: History): History
  {
    h.(commands := [], index := -1,
       notifications := if h.hasCallback && |h.commands| > 0 then h.notifications + 1 else h.notifications)
  }

  function WithLimit(h: History, l: int): History
  {
    h.(limit := l)
  }

  function WithCallback(h: History, present: bool): History
  {
    h.(hasCallback := present)
  }

  /** `hasUndo()`. */
  predicate CanUndo(h: History)
  {
    h.index != -1
  }

  /** `hasRedo()`. */
  predicate CanRedo(h: History)
  {
    h.index < |h.commands| - 1
  }

  /** One call of the user interface. Every call keeps the cursor invariant and
      none leaves the guard raised. */
  function Apply(h: History, call: Call): (r: History)
    requires Wellformed(h)
    ensures Wellformed(r)
    ensures !h.executing ==> !r.executing
  {
    match call
    case AddCall(c) => Added(h, c)
    case UndoCall => Undone(h)
    case RedoCall => Redone(h)
    case ClearCall => Cleared(h)
    case SetLimitCall(l) => WithLimit(h, l)
    case SetCallbackCall(present) => WithCallback(h, present)
  }

  /** A session: the calls applied one after another. */
  function Run(h: History, calls: seq<Call>): History
    requires Wellformed(h)
    decreases |calls|
  {
    if calls == [] then h else Run(Apply(h, calls[0]), calls[1..])
  }

  // ---------------------------------------------------------------------------
  // add

  /** The array calls `add` makes compute `Added`'s commands: the splice at the
      cursor keeps exactly the commands up to the cursor, and `removeFromTo(0,
      -(limit + 1))`, made when a truthy limit is exceeded, evicts what
      `Retained` says. */
  lemma AddArrayCalls(cs: seq<Command>, index: int, limit: int, c: Command)
    requires -1 <= index < |cs|
    ensures var t := Spliced(cs, index + 1, |cs| - index) + [c];
            t == cs[..index + 1] + [c]
            && (if limit != 0 && |t| > limit then RemovedFromTo(t, 0, -(limit + 1)) else t)
               == Retained(cs[..index + 1] + [c], limit)
  {
    SplicedTail(cs, index + 1, |cs| - index);
    EvictionRetains(cs[..index + 1] + [c], limit);
  }

  /** The eviction step of `add` on the truncated-and-appended commands `t`. */
  lemma EvictionRetains(t: seq<Command>, limit: int)
    ensures (if limit != 0 && |t| > limit then RemovedFromTo(t, 0, -(limit + 1)) else t) == Retained(t, limit)
  {
    if limit > 0 && |t| > limit {
      RemovedFromToKeepsNewest(t, limit);
    } else if limit < 0 {
      RemovedFromToNegativeLimit(t, limit);
    }
  }

  /** `add` outside a command's function: the cursor points at the last command,
      nothing is left to redo and the observer hears once; without a limit the
      commands are those up to the cursor followed by `c`, with a non-negative
      limit `c` is the last command, and with a positive limit the history fits it. */
  lemma AddedProperties(h: History, c: Command)
    requires Idle(h)
    ensures var a := Added(h, c);
            Idle(a) && a.index == |a.commands| - 1 && !CanRedo(a)
            && a.notifications == Notify(h) && a.trace == h.trace
            && a.limit == h.limit && a.hasCallback == h.hasCallback
            && (h.limit == 0 ==> a.commands == h.commands[..h.index + 1] + [c])
            && (h.limit >= 0 ==> |a.commands| > 0 && a.commands[|a.commands| - 1] == c)
            && (h.limit > 0 ==> |a.commands| <= h.limit)
  {
    var t := h.commands[..h.index + 1] + [c];
    if h.limit > 0 && |t| > h.limit {
      assert Added(h, c).commands == t[|t| - h.limit..];
    }
  }

  /** `add` while a command's function runs changes nothing at all. */
  lemma AddedWhileExecuting(h: History, c: Command)
    requires Wellformed(h) && h.executing
    ensures Added(h, c) == h
  {
  }

  /** A series of adds from an idle manager without a limit: the commands up to
      the cursor followed by the new commands; the cursor ends on the last one
      and, once anything was added, there is nothing to redo. */
  lemma {:induction false} AddAllUnbounded(h: History, cs: seq<Command>)
    requires Idle(h) && h.limit == 0
    ensures var a := AddAll(h, cs);
            Idle(a)
            && a.commands == (if cs == [] then h.commands else h.commands[..h.index + 1] + cs)
            && a.index == (if cs == [] then h.index else |a.commands| - 1)
            && (cs != [] ==> !CanRedo(a))
    decreases |cs|
  {
    if cs != [] {
      var h' := Added(h, cs[0]);
      AddedProperties(h, cs[0]);
      AddAllUnbounded(h', cs[1..]);
      assert h'.commands[..h'.index + 1] == h'.commands;
      assert h.commands[..h.index + 1] + [cs[0]] + cs[1..] == h.commands[..h.index + 1] + cs;
    }
  }

  /** Keeping the newest `n` then appending and keeping the newest `n` again is
      the same as appending first. */
  lemma NewestAppend<T>(t: seq<T>, x: T, n: nat)
    requires n > 0
    ensures Newest(Newest(t, n) + [x], n) == Newest(t + [x], n)
  {
    var r := Newest(t, n);
    if |t| > n {
      assert t == t[..|t| - n] + r;
      assert t + [x] == t[..|t| - n] + (r + [x]);
    }
  }

  /** `NewestAppend` for a whole sequence of appended elements. */
  lemma {:induction false} NewestAppendAll<T>(t: seq<T>, xs: seq<T>, n: nat)
    requires n > 0
    ensures Newest(Newest(t, n) + xs, n) == Newest(t + xs, n)
    decreases |xs|
  {
    if xs == [] {
      assert Newest(t, n) + xs == Newest(t, n);
      assert t + xs == t;
    } else {
      var ys, x := xs[..|xs| - 1], xs[|xs| - 1];
      NewestAppendAll(t, ys, n);
      assert Newest(t, n) + xs == (Newest(t, n) + ys) + [x];
      assert t + xs == (t + ys) + [x];
      NewestAppend(Newest(t, n) + ys, x, n);
      NewestAppend(t + ys, x, n);
    }
  }

  /** A series of adds from an idle manager with a positive limit retains the
      newest `limit` commands of those up to the cursor followed by the new
      commands, in order, with the cursor on the last. */
  lemma {:induction false} AddAllBounded(h: History, cs: seq<Command>)
    requires Idle(h) && h.limit > 0
    requires cs != []
    ensures var a := AddAll(h, cs);
            Idle(a)
            && a.commands == Newest(h.commands[..h.index + 1] + cs, h.limit)
            && a.index == |a.commands| - 1 && !CanRedo(a)
    decreases |cs|
  {
    var p, c0, rest := h.commands[..h.index + 1], cs[0], cs[1..];
    var h' := Added(h, c0);
    assert h'.commands == Newest(p + [c0], h.limit);
    if rest == [] {
      assert cs == [c0];
    } else {
      AddAllBounded(h', rest);
      assert h'.commands[..h'.index + 1] == h'.commands;
      NewestAppendAll(p + [c0], rest, h.limit);
      assert p + [c0] + rest == p + cs;
    }
  }

  // ---------------------------------------------------------------------------
  // undo and redo

  /** `undo` does nothing, and notifies no one, when there is no truthy command at
      the cursor (in particular when the cursor is -1). Otherwise it moves the
      cursor down by one, notifies once, keeps the commands and appends the
      command's undo event when its `undo` is a function. */
  lemma UndoneProperties(h: History)
    requires Idle(h)
    ensures var c := At(h.commands, h.index);
            var u := Undone(h);
            Idle(u) && u.limit == h.limit && u.hasCallback == h.hasCallback
            && (!Truthy(c) ==> u == h)
            && (Truthy(c) ==> u.commands == h.commands && u.index == h.index - 1
                              && u.notifications == Notify(h)
                              && u.trace == h.trace + Effect(c, UndoStep))
  {
  }

  /** `redo` does nothing when there is no truthy command above the cursor;
      otherwise it moves the cursor up by one, notifies once, keeps the commands
      and appends the command's redo event when its `redo` is a function. */
  lemma RedoneProperties(h: History)
    requires Idle(h)
    ensures var c := At(h.commands, h.index + 1);
            var r := Redone(h);
            Idle(r) && r.limit == h.limit && r.hasCallback == h.hasCallback
            && (!Truthy(c) ==> r == h)
            && (Truthy(c) ==> r.commands == h.commands && r.index == h.index + 1
                              && r.notifications == Notify(h)
                              && r.trace == h.trace + Effect(c, RedoStep))
  {
  }

  /** An `undo` that did something followed by a `redo` restores the cursor and
      the commands; the trace shows the undo and then the redo of the same
      command, and the observer heard twice. */
  lemma UndoThenRedo(h: History)
    requires Idle(h)
    requires Truthy(At(h.commands, h.index))
    ensures var c := At(h.commands, h.index);
            var r := Redone(Undone(h));
            r.commands == h.commands && r.index == h.index && Idle(r)
            && r.trace == h.trace + Effect(c, UndoStep) + Effect(c, RedoStep)
            && r.notifications == (if h.hasCallback then h.notifications + 2 else h.notifications)
  {
    UndoneProperties(h);
    RedoneProperties(Undone(h));
  }

  /** A `redo` that did something followed by an `undo` restores the cursor and
      the commands. */
  lemma RedoThenUndo(h: History)
    requires Idle(h)
    requires Truthy(At(h.commands, h.index + 1))
    ensures var c := At(h.commands, h.index + 1);
            var u := Undone(Redone(h));
            u.commands == h.commands && u.index == h.index && Idle(u)
            && u.trace == h.trace + Effect(c, RedoStep) + Effect(c, UndoStep)
  {
    RedoneProperties(h);
    UndoneProperties(Redone(h));
  }

  /** Undoing `n` times from a cursor whose `n` topmost applied commands are all
      truthy lowers the cursor by exactly `n` and keeps the commands. */
  lemma {:induction false} UndoRepeated(h: History, n: nat)
    requires Idle(h)
    requires n <= h.index + 1
    requires forall i :: h.index - n < i <= h.index ==> Truthy(h.commands[i])
    ensures var u := Run(h, seq(n, _ => UndoCall));
            Idle(u) && u.commands == h.commands && u.index == h.index - n
    decreases n
  {
    if n > 0 {
      UndoneProperties(h);
      UndoRepeated(Undone(h), n - 1);
      assert seq(n, _ => UndoCall)[1..] == seq(n - 1, _ => UndoCall);
    }
  }

  // ---------------------------------------------------------------------------
  // clear, limit, callback and whole sessions

  /** `clear` empties the history so that nothing can be undone or redone, and
      notifies exactly when there was something to clear and an observer. */
  lemma ClearedProperties(h: History)
    ensures var c := Cleared(h);
            Wellformed(c) && c.commands == [] && !CanUndo(c) && !CanRedo(c)
            && c.notifications == (if |h.commands| > 0 then Notify(h) else h.notifications)
  {
  }

  /** Between calls the manager is well formed and its guard is down, whatever
      sequence of calls the user interface makes, negative limits included. */
  lemma {:induction false} RunStaysIdle(h: History, calls: seq<Call>)
    requires Idle(h)
    ensures Idle(Run(h, calls))
    decreases |calls|
  {
    if calls != [] {
      RunStaysIdle(Apply(h, calls[0]), calls[1..]);
    }
  }

  /** Branching is not kept: with commands A, B, C added, two undos and an add of
      D leave [A, D] with nothing to redo. */
  lemma DiscardRedoBranch(a: Command, b: Command, c: Command, d: Command)
    requires Truthy(a) && Truthy(b) && Truthy(c)
    ensures var h := Added(Undone(Undone(AddAll(Initial(), [a, b, c]))), d);
            h.commands == [a, d] && h.index == 1 && !CanRedo(h)
  {
    AddAllUnbounded(Initial(), [a, b, c]);
    var h3 := AddAll(Initial(), [a, b, c]);
    assert h3.commands == [a, b, c];
    UndoneProperties(h3);
    UndoneProperties(Undone(h3));
    var h5 := Undone(Undone(h3));
    assert h5.commands[..h5.index + 1] == [a];
  }

  /** With limit 2, adding A, B, C keeps [B, C] with the cursor on C; one undo puts
      the cursor on B, which can still be undone. */
  lemma LimitTwo(a: Command, b: Command, c: Command)
    requires Truthy(a) && Truthy(b) && Truthy(c)
    ensures var h := AddAll(WithLimit(Initial(), 2), [a, b, c]);
            h.commands == [b, c] && h.index == 1
            && Undone(h).index == 0 && CanUndo(Undone(h))
  {
    AddAllBounded(WithLimit(Initial(), 2), [a, b, c]);
    var h := AddAll(WithLimit(Initial(), 2), [a, b, c]);
    assert [] + [a, b, c] == [a, b, c];
    assert h.commands == [b, c];
    UndoneProperties(h);
  }

  /** The array work of `add` on the live array `a`: splice away everything
      above the cursor, push `c`, and evict with `removeFromTo` when a truthy
      limit is exceeded. */
  method PushAtCursor(a: JsArray<Command>, index: int, limit: int, c: Command)
    requires -1 <= index < |a.items|
    modifies a
    ensures a.items == Retained(old(a.items)[..index + 1] + [c], limit)
  {
    ghost var s0 := a.items;
    var _ := a.Splice(index + 1, |a.items| - index);
    var length := a.Push(c);
    if limit != 0 && length > limit {
      var _ := a.RemoveFromTo(0, -(limit + 1));
    }
    AddArrayCalls(s0, index, limit, c);
  }

  // ---------------------------------------------------------------------------
  // The manager object

  /** The object `new UndoManager()` returns: its closure variables become
      fields; the callback is reduced to whether one is registered and how often
      it has been called; the effects of command functions are recorded in `trace`. */
  class UndoManager {
    var commands: JsArray<Command>
    var index: int
    var limit: int
    var isExecuting: bool
    var hasCallback: bool
    var notifications: nat
    var trace: seq<Event>

    function Model(): History
      reads this, commands
    {
      History(commands.items, index, limit, isExecuting, hasCallback, notifications, trace)
    }

    ghost predicate Valid()
      reads this, commands
    {
      Wellformed(Model())
    }

    constructor ()
      ensures Valid() && fresh(commands)
      ensures Model() == Initial()
    {
      commands := new JsArray([]);
      index := -1;
      limit := 0;
      isExecuting := false;
      hasCallback := false;
      notifications := 0;
      trace := [];
    }

    /** `execute(command, action)`: the command's function runs with the guard
        raised, so every `add` it makes is ignored. */
    method Execute(c: Command, step: Step)
      requires Valid()
      modifies this, commands
      ensures Valid() && commands == old(commands)
      ensures Model() == Executed(old(Model()), c, step)
    {
      if !Runs(c, step) {
        return;
      }
      isExecuting := true;
      // the command's function runs: its own effect, then its calls to add
      trace := trace + [Event(c.id, step)];
      ghost var during := Model();
      var adds := Reentrant(c, step);
      var i := 0;
      while i < |adds|
        invariant 0 <= i <= |adds|
        invariant commands == old(commands)
        invariant Model() == during
      {
        Add(adds[i]);
        i := i + 1;
      }
      isExecuting := false;
    }

    method Add(c: Command)
      requires Valid()
      modifies this, commands
      ensures Valid() && commands == old(commands)
      ensures Model() == Added(old(Model()), c)
    {
      if isExecuting {
        return;
      }
      ghost var h0 := Model();
      PushAtCursor(commands, index, limit, c);
      index := |commands.items| - 1;
      if hasCallback {
        notifications := notifications + 1;
      }
      assert Model() == h0.(commands := commands.items, index := index, notifications := Notify(h0));
    }

    /** `setCallback(fn)`, reduced to whether `fn` is truthy. */
    method SetCallback(present: bool)
      modifies this
      ensures commands == old(commands)
      ensures Model() == WithCallback(old(Model()), present)
    {
      hasCallback := present;
    }

    method Undo()
      requires Valid()
      modifies this, commands
      ensures Valid() && commands == old(commands)
      ensures Model() == Undone(old(Model()))
    {
      var c := At(commands.items, index);
      if !Truthy(c) {
        return;
      }
      Execute(c, UndoStep);
      index := index - 1;
      if hasCallback {
        notifications := notifications + 1;
      }
    }

    method Redo()
      requires Valid()
      modifies this, commands
      ensures Valid() && commands == old(commands)
      ensures Model() == Redone(old(Model()))
    {
      var c := At(commands.items, index + 1);
      if !Truthy(c) {
        return;
      }
      Execute(c, RedoStep);
      index := index + 1;
      if hasCallback {
        notifications := notifications + 1;
      }
    }

    /** `clear()` replaces the array by a new empty one; an array handed out
        earlier by `getCommands` keeps its contents. */
    method Clear()
      requires Valid()
      modifies this
      ensures Valid() && fresh(commands)
      ensures old(commands).items == old(commands.items)
      ensures Model() == Cleared(old(Model()))
    {
      var prevSize := |commands.items|;
      commands := new JsArray([]);
      index := -1;
      if hasCallback && prevSize > 0 {
        notifications := notifications + 1;
      }
    }

    /** True exactly when some command is at or below the cursor. */
    function HasUndo(): (r: bool)
      reads this, commands
      requires Valid()
      ensures r <==> 0 <= index < |commands.items|
    {
      CanUndo(Model())
    }

    /** True exactly when some command lies above the cursor. */
    function HasRedo(): (r: bool)
      reads this, commands
      requires Valid()
      ensures r <==> 0 <= index + 1 < |commands.items|
    {
      CanRedo(Model())
    }

    /** `getCommands()` hands out the live array, not a copy. */
    method GetCommands() returns (a: JsArray<Command>)
      ensures a == commands && a.items == Model().commands
    {
      a := commands;
    }

    /** `setLimit(l)`: takes effect at the next `add`; the history is not trimmed now. */
    method SetLimit(l: int)
      modifies this
      ensures commands == old(commands)
      ensures Model() == WithLimit(old(Model()), l)
    {
      limit := l;
    }
  }
}
