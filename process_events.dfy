/** `ProcessEventEmitter` of `src/js/process/events.cpp`: the `process` object's table from event
    names to listener lists, the `process.on` binding in front of it, and `process.hrtime` on
    integer nanoseconds. */
module ProcessEvents {
  import opened Wrappers
  import opened Strings
  import opened JsValues

  /** A registered listener: the context it was added from and the function to call. */
  datatype Listener = Listener(ctx: ObjectRef, callback: ObjectRef)

  type Table = map<string, seq<Listener>>

  /** An event's listeners; an event never named has none. */
  function ListenersOf(t: Table, name: string): seq<Listener> {
    if name in t then t[name] else []
  }

  /** The list without the listeners of `callback`, the rest in their order (`remove_if`). */
  function Without(ls: seq<Listener>, callback: ObjectRef): (r: seq<Listener>)
    ensures |r| <= |ls|
  {
    if ls == [] then []
    else if ls[|ls| - 1].callback == callback then Without(ls[..|ls| - 1], callback)
    else Without(ls[..|ls| - 1], callback) + [ls[|ls| - 1]]
  }

  /** The listeners of `callback` in a list. */
  function CountOf(ls: seq<Listener>, callback: ObjectRef): (n: nat)
    ensures n <= |ls|
  {
    if ls == [] then 0
    else CountOf(ls[..|ls| - 1], callback) + (if ls[|ls| - 1].callback == callback then 1 else 0)
  }

  /** Precisely the listeners of other functions stay, and as many as there were. */
  lemma {:induction false} WithoutKeepsOthers(ls: seq<Listener>, callback: ObjectRef)
    ensures forall l :: l in Without(ls, callback) <==> l in ls && l.callback != callback
    ensures |Without(ls, callback)| + CountOf(ls, callback) == |ls|
  {
    if ls != [] {
      WithoutKeepsOthers(ls[..|ls| - 1], callback);
      assert ls == ls[..|ls| - 1] + [ls[|ls| - 1]];
      assert forall l :: l in ls <==> l in ls[..|ls| - 1] || l == ls[|ls| - 1];
    }
  }

  /** Removal keeps the order of the rest: removing from a list ending in another function's
      listener ends the result in that listener. */
  lemma WithoutAppend(ls: seq<Listener>, l: Listener, callback: ObjectRef)
    ensures Without(ls + [l], callback) ==
      (if l.callback == callback then Without(ls, callback) else Without(ls, callback) + [l])
  {
    assert (ls + [l])[..|ls + [l]| - 1] == ls;
  }

  /** Removing twice removes nothing more. */
  lemma {:induction false} WithoutIdempotent(ls: seq<Listener>, callback: ObjectRef)
    ensures Without(Without(ls, callback), callback) == Without(ls, callback)
  {
    if ls != [] {
      var init := ls[..|ls| - 1];
      WithoutIdempotent(init, callback);
      if ls[|ls| - 1].callback != callback {
        WithoutAppend(Without(init, callback), ls[|ls| - 1], callback);
      }
    }
  }

  /** A list where the function was never added is left as it is. */
  lemma {:induction false} WithoutAbsent(ls: seq<Listener>, callback: ObjectRef)
    requires forall i :: 0 <= i < |ls| ==> ls[i].callback != callback
    ensures Without(ls, callback) == ls
  {
    if ls != [] {
      WithoutAbsent(ls[..|ls| - 1], callback);
      assert ls == ls[..|ls| - 1] + [ls[|ls| - 1]];
    }
  }

  /** The table after `on`: `listeners[name].push_back(...)`. */
  function Added(t: Table, name: string, l: Listener): (r: Table)
    ensures forall n :: n != name ==> ListenersOf(r, n) == ListenersOf(t, n)
    ensures ListenersOf(r, name) == ListenersOf(t, name) + [l]
  {
    t[name := ListenersOf(t, name) + [l]]
  }

  /** The table after `removeListener`: `listeners[name]` is created when missing, then compacted. */
  function Removed(t: Table, name: string, callback: ObjectRef): (r: Table)
    ensures forall n :: n != name ==> ListenersOf(r, n) == ListenersOf(t, n)
    ensures name in r && forall i :: 0 <= i < |r[name]| ==> r[name][i].callback != callback
  {
    var kept := Without(ListenersOf(t, name), callback);
    WithoutKeepsOthers(ListenersOf(t, name), callback);
    assert forall i :: 0 <= i < |kept| ==> kept[i] in kept;
    t[name := kept]
  }

  /** `hasListeners` on a table. */
  predicate HasListenersIn(t: Table, name: string) {
    name in t && t[name] != []
  }

  /** Having listeners is having any listener at all. */
  lemma HasListenersMeansSome(t: Table, name: string)
    ensures HasListenersIn(t, name) <==> ListenersOf(t, name) != []
  {
  }

  /** After `on` the event has listeners; removing a function's listeners leaves the event with
      listeners exactly when some other function's listener remains; removing from an event with
      no listeners leaves it without any, though `removeListener` created its entry. */
  lemma HasListenersAfter(t: Table, name: string, l: Listener, callback: ObjectRef)
    ensures HasListenersIn(Added(t, name, l), name)
    ensures HasListenersIn(Removed(t, name, callback), name) <==>
      exists i :: 0 <= i < |ListenersOf(t, name)| && ListenersOf(t, name)[i].callback != callback
    ensures !HasListenersIn(t, name) ==> !HasListenersIn(Removed(t, name, callback), name) && name in Removed(t, name, callback)
  {
    var ls := ListenersOf(t, name);
    WithoutKeepsOthers(ls, callback);
    var kept := Without(ls, callback);
    if kept != [] {
      assert kept[0] in kept;
    }
    if exists i :: 0 <= i < |ls| && ls[i].callback != callback {
      var i :| 0 <= i < |ls| && ls[i].callback != callback;
      assert ls[i] in kept;
    }
  }

  /** Adding a listener and removing its function gives the same list as removing alone. */
  lemma RemoveUndoesOn(t: Table, name: string, l: Listener)
    ensures ListenersOf(Removed(Added(t, name, l), name, l.callback), name) ==
            ListenersOf(Removed(t, name, l.callback), name)
  {
    WithoutAppend(ListenersOf(t, name), l, l.callback);
  }

  /** What a listener does when called with the arguments: the exception it throws, if any. */
  type Calls = (Listener, seq<Value>) -> Option<Value>

  /** The line written to standard error for a listener that threw. */
  function HandlerError(name: string, exception: Value): string {
    "Error in event handler for '" + name + "': " + CString(ToJsString(exception))
  }

  /** The error lines of a run over `ls`, in order. */
  function ErrorLines(name: string, ls: seq<Listener>, args: seq<Value>, calls: Calls): (r: seq<string>)
    ensures |r| <= |ls|
    ensures r == [] <==> forall i :: 0 <= i < |ls| ==> calls(ls[i], args).None?
  {
    if ls == [] then []
    else
      var before := ErrorLines(name, ls[..|ls| - 1], args, calls);
      assert forall i :: 0 <= i < |ls| - 1 ==> ls[..|ls| - 1][i] == ls[i];
      match calls(ls[|ls| - 1], args)
      case None => before
      case Some(ex) => before + [HandlerError(name, ex)]
  }

  /** A listener added last is called last, and its error, if any, is the last line. */
  lemma ErrorLinesSnoc(name: string, ls: seq<Listener>, l: Listener, args: seq<Value>, calls: Calls)
    ensures ErrorLines(name, ls + [l], args, calls) ==
      ErrorLines(name, ls, args, calls) + (if calls(l, args).Some? then [HandlerError(name, calls(l, args).value)] else [])
  {
    assert (ls + [l])[..|ls + [l]| - 1] == ls;
  }

  /** Emitting after `on`: the earlier listeners run as before, then the new one. */
  lemma EmitAfterOn(t: Table, name: string, l: Listener, args: seq<Value>, calls: Calls)
    ensures var ls := ListenersOf(Added(t, name, l), name);
      && ls == ListenersOf(t, name) + [l]
      && ErrorLines(name, ls, args, calls) == ErrorLines(name, ListenersOf(t, name), args, calls) +
           (if calls(l, args).Some? then [HandlerError(name, calls(l, args).value)] else [])
  {
    ErrorLinesSnoc(name, ListenersOf(t, name), l, args, calls);
  }

  /** The process-wide emitter. */
  class ProcessEventEmitter {
    /** `listeners`. */
    var listeners: Table

    constructor()
      ensures listeners == map[]
    {
      listeners := map[];
    }

    /** `on`: the listener goes to the end of the event's list. */
    method On(name: string, ctx: ObjectRef, callback: ObjectRef)
      modifies this
      ensures listeners == Added(old(listeners), name, Listener(ctx, callback))
    {
      var ls := if name in listeners then listeners[name] else [];
      listeners := listeners[name := ls + [Listener(ctx, callback)]];
    }

    /** `removeListener`: `remove_if` moves the listeners of other functions to the front, in
        order, and `erase` cuts off the rest. */
    method RemoveListener(name: string, callback: ObjectRef)
      modifies this
      ensures listeners == Removed(old(listeners), name, callback)
    {
      var ls := if name in listeners then listeners[name] else [];
      var kept := [];
      for i := 0 to |ls|
        invariant kept == Without(ls[..i], callback)
      {
        assert ls[..i + 1][..i] == ls[..i];
        if ls[i].callback != callback {
          kept := kept + [ls[i]];
        }
      }
      assert ls[..|ls|] == ls;
      listeners := listeners[name := kept];
    }

    /** `emit`: every listener of the event is called, in the order added, with the same
        arguments; one that throws has its error written and the rest are still called. An event
        without an entry calls nothing. Returns the listeners called and the error lines. */
    method Emit(name: string, args: seq<Value>, calls: Calls) returns (called: seq<Listener>, errors: seq<string>)
      ensures called == ListenersOf(listeners, name)
      ensures errors == ErrorLines(name, called, args, calls)
    {
      called := [];
      errors := [];
      if name in listeners {
        var ls := listeners[name];
        for i := 0 to |ls|
          invariant called == ls[..i]
          invariant errors == ErrorLines(name, called, args, calls)
        {
          var exception := calls(ls[i], args);
          assert ls[..i + 1] == called + [ls[i]];
          ErrorLinesSnoc(name, called, ls[i], args, calls);
          if exception.Some? {
            errors := errors + [HandlerError(name, exception.value)];
          }
          called := called + [ls[i]];
        }
        assert ls[..|ls|] == ls;
      }
    }

    /** `hasListeners`. */
    function HasListeners(name: string): (r: bool)
      reads this
      ensures r <==> ListenersOf(listeners, name) != []
    {
      HasListenersIn(listeners, name)
    }
  }

  /** The `process.on` binding: with fewer than two arguments, a name that is not a string or a
      callback that is not an object, nothing is added; otherwise the name, cut at its first NUL,
      gets the callback. */
  method ProcessOn(emitter: ProcessEventEmitter, ctx: ObjectRef, args: seq<Value>)
    modifies emitter
    ensures if |args| < 2 || !args[0].Str? || !args[1].Obj? then emitter.listeners == old(emitter.listeners)
            else emitter.listeners == Added(old(emitter.listeners), CString(args[0].s), Listener(ctx, args[1].ref))
  {
    if |args| < 2 || !args[0].Str? || !args[1].Obj? {
      return;
    }
    var name := CString(args[0].s);
    emitter.On(name, ctx, args[1].ref);
  }

  const NanosPerSecond := 1_000_000_000

  /** C++ integer division, which truncates toward zero. */
  function TruncDiv(a: int, b: int): (q: int)
    requires b > 0
  {
    if a >= 0 then a / b else -((-a) / b)
  }

  /** The quotient is the whole part of `a / b`: the remainder has the sign of `a` and is smaller
      than `b`. */
  lemma TruncDivRemainder(a: int, b: int)
    requires b > 0
    ensures var r := a - TruncDiv(a, b) * b;
      -b < r < b && (a >= 0 ==> r >= 0) && (a <= 0 ==> r <= 0)
  {
    if a < 0 {
      assert (-a) - ((-a) / b) * b == (-a) % b;
    }
  }

  /** `process.hrtime([time])`: `elapsed` nanoseconds since the first call, less `[sec, ns]` when
      an array of two numbers is passed; then split into whole seconds and the rest. */
  function Hrtime(elapsed: int, args: seq<Value>, element: (ObjectRef, nat) -> Value): (r: (int, int))
  {
    var duration :=
      if |args| > 0 && args[0].Obj? && element(args[0].ref, 0).Number? && element(args[0].ref, 1).Number? then
        elapsed - (element(args[0].ref, 0).n * NanosPerSecond + element(args[0].ref, 1).n)
      else elapsed;
    var secs := TruncDiv(duration, NanosPerSecond);
    (secs, duration - secs * NanosPerSecond)
  }

  /** The pair is the duration: seconds and nanoseconds add up to it, the nanoseconds are less than
      a second and carry the sign of the duration. */
  lemma HrtimeSplits(elapsed: int, args: seq<Value>, element: (ObjectRef, nat) -> Value)
    ensures var r := Hrtime(elapsed, args, element);
      var d := if |args| > 0 && args[0].Obj? && element(args[0].ref, 0).Number? && element(args[0].ref, 1).Number? then
        elapsed - (element(args[0].ref, 0).n * NanosPerSecond + element(args[0].ref, 1).n)
      else elapsed;
      && r.0 * NanosPerSecond + r.1 == d
      && -NanosPerSecond < r.1 < NanosPerSecond
      && (d >= 0 ==> r.0 >= 0 && r.1 >= 0) && (d <= 0 ==> r.0 <= 0 && r.1 <= 0)
  {
    var r := Hrtime(elapsed, args, element);
    var d := r.0 * NanosPerSecond + r.1;
    TruncDivRemainder(d, NanosPerSecond);
  }

  /** Passing back an earlier reading gives the time since it. */
  lemma HrtimeSince(earlier: int, elapsed: int, pair: ObjectRef, element: (ObjectRef, nat) -> Value)
    requires var p := Hrtime(earlier, [], element); element(pair, 0) == Number(p.0) && element(pair, 1) == Number(p.1)
    ensures var r := Hrtime(elapsed, [Obj(pair)], element); r.0 * NanosPerSecond + r.1 == elapsed - earlier
  {
    HrtimeSplits(elapsed, [Obj(pair)], element);
  }
}
