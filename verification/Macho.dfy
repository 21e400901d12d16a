/** The machine: pending transitions are performed by exits, history records, entries and an init. */
module Macho {
  import opened Wrappers
  import opened MachoTree

  /** How the target of a transition is initialised: by init(), by its history if it has one, or by init(parameters). */
  datatype Initializer = DefaultInit | HistoryInit | ParameterInit

  datatype Request = Request(target: State, init: Initializer)

  class MachineBase {
    const tree: Tree
    var current: Option<State>
    var pending: Option<Request>
    var pendingEvent: bool
    var histories: Histories
    var boxes: set<State>  // the states that have a box
    ghost var trace: seq<Action>  // all calls of user actions so far

    /** Every active state has its box, and a box outlives its state only if it is kept. */
    ghost predicate BoxesOk(active: seq<State>)
      requires TreeOk(tree)
      reads this`boxes
    {
      && (forall s :: s in boxes ==> IsState(tree, s) && s != ROOT && (s in active || tree.keepsBox[s]))
      && (forall s :: s in active ==> s in boxes)
    }

    /**
     The states entered and not yet left are the superstates of the current one and itself,
     and they were entered and left one by one, each from the innermost active state.
     */
    ghost predicate Active(s: State)
      reads this`boxes, this`trace
    {
      Reaches(tree, trace, s) && BoxesOk(Path(tree, s))
    }

    ghost predicate Valid()
      reads this
    {
      && TreeOk(tree) && HistoryOk(tree, histories)
      && (current.Some? ==> Active(current.value))
      && (pending.Some? ==> IsState(tree, pending.value.target))
    }

    constructor (tree: Tree)
      requires TreeOk(tree)
      ensures Valid() && this.tree == tree && current == None && pending == None && !pendingEvent
      ensures histories == map[] && boxes == {} && trace == []
      ensures Replay(tree, [], trace) == Some([]) && BoxesOk([])
    {
      this.tree := tree;
      current, pending, pendingEvent := None, None, false;
      histories, boxes := map[], {};
      trace := [];
    }

    // ----- What user code may do; these are all the places where a call is recorded -----

    method UserEntry(s: State)
      modifies this`trace
      ensures trace == old(trace) + [Entry(s)]
    {
      trace := trace + [Entry(s)];
    }

    method UserExit(s: State)
      modifies this`trace
      ensures trace == old(trace) + [Exit(s)]
    {
      trace := trace + [Exit(s)];
    }

    /** A user's init action may ask for a transition, but only to a proper substate.  That of Root does nothing. */
    method UserInit(s: State) returns (r: Option<Request>)
      requires IsState(tree, s)
      modifies this`trace
      ensures trace == old(trace) + [Init(s)]
      ensures r.Some? ==> IsState(tree, r.value.target) && IsChild(tree, r.value.target, s) && r.value.target != s
      ensures s == ROOT ==> r.None?
    {
      trace := trace + [Init(s)];
      var target: State, init: Initializer := *, *;
      if * {
        r := None;
      } else if s != ROOT && target < |tree.parent| && IsChild(tree, target, s) && target != s {
        r := Some(Request(target, init));
      } else {
        r := None;
      }
    }

    /** A user's event handler may ask for any transition, and may post a further event. */
    method UserHandler(s: State) returns (r: Option<Request>, event: bool)
      requires TreeOk(tree)
      modifies this`trace
      ensures trace == old(trace) + [Handle(s)]
      ensures r.Some? ==> IsState(tree, r.value.target)
    {
      trace := trace + [Handle(s)];
      var target: State, init: Initializer := *, *;
      event := *;
      if * {
        r := None;
      } else if target < |tree.parent| {
        r := Some(Request(target, init));
      } else {
        r := None;
      }
    }

    // ----- Entering, leaving and initialising a state -----

    method EntryOf(s: State, previous: State, first: bool)
      requires IsState(tree, s) && IsState(tree, previous)
      modifies this`boxes, this`trace
      ensures trace == old(trace) + EntryTrace(tree, s, previous, first)
      ensures forall q: State :: q in boxes <==> q in old(boxes) || Entry(q) in EntryTrace(tree, s, previous, first)
      decreases tree.depth[s]
    {
      if s == ROOT {
        return;
      }
      if first || !IsChild(tree, previous, s) {
        EntryOf(tree.parent[s], previous, false);
        boxes := boxes + {s};
        UserEntry(s);
      }
    }

    /** A state that is left must have a box, or deleting it would assert. */
    method ExitOf(s: State, next: State)
      requires IsState(tree, s) && IsState(tree, next)
      requires forall q: State :: Exit(q) in ExitTrace(tree, s, next) ==> q in boxes
      modifies this`boxes, this`trace
      ensures trace == old(trace) + ExitTrace(tree, s, next)
      ensures forall q: State :: q in boxes <==>
        q in old(boxes) && (Exit(q) in ExitTrace(tree, s, next) ==> IsState(tree, q) && tree.keepsBox[q])
      decreases tree.depth[s]
    {
      if s == ROOT {
        return;
      }
      if s == next || !IsChild(tree, next, s) {
        ghost var rest := ExitTrace(tree, tree.parent[s], next);
        assert ExitTrace(tree, s, next) == [Exit(s)] + rest;
        assert Exit(s) in ExitTrace(tree, s, next);
        assert forall q :: Exit(q) in rest ==> Exit(q) in ExitTrace(tree, s, next);
        assert Exit(s) !in rest by {
          ExitedStates(tree, tree.parent[s], next, s);
          if IsChild(tree, tree.parent[s], s) {
            SuperstateIsShallower(tree, tree.parent[s], s);
          }
        }
        UserExit(s);
        if !tree.keepsBox[s] {
          boxes := boxes - {s};
        }
        ExitOf(tree.parent[s], next);
        assert forall q :: Exit(q) in ExitTrace(tree, s, next) <==> q == s || Exit(q) in rest;
      }
    }

    lemma LeavingNeedsBoxes(from: State, to: State)
      requires IsState(tree, from) && IsState(tree, to) && BoxesOk(Path(tree, from))
      ensures forall q: State :: Exit(q) in ExitTrace(tree, from, to) ==> q in boxes
    {
      forall q | Exit(q) in ExitTrace(tree, from, to)
        ensures q in boxes
      {
        ExitedStates(tree, from, to, q);
        PathIsSuperstates(tree, from, q);
      }
    }

    /** The boxes that a transition leaves behind are right for its target. */
    lemma BoxesAfterTransition(before: set<State>, from: State, to: State)
      requires IsState(tree, from) && IsState(tree, to)
      requires forall q: State :: q in before ==>
        IsState(tree, q) && q != ROOT && (q in Path(tree, from) || tree.keepsBox[q])
      requires forall q: State :: q in Path(tree, from) ==> q in before
      requires forall q: State :: q in boxes <==>
        || Entry(q) in EntryTrace(tree, to, from, true)
        || (q in before && (Exit(q) in ExitTrace(tree, from, to) ==> IsState(tree, q) && tree.keepsBox[q]))
      ensures BoxesOk(Path(tree, to))
    {
      forall q | q in boxes || q in Path(tree, to)
        ensures q in boxes && IsState(tree, q) && q != ROOT && (q in Path(tree, to) || tree.keepsBox[q])
      {
        EnteredStates(tree, to, from, true, q);
        ExitedStates(tree, from, to, q);
        PathOmitsRoot(tree, to);
        if q != ROOT {
          PathIsSuperstates(tree, from, q);
          PathIsSuperstates(tree, to, q);
          if IsChild(tree, to, q) {
            SuperstateIsShallower(tree, to, q);
          }
        }
      }
    }

    /** Stores the state left in the histories of its superstates, each according to its strategy. */
    method SetHistorySuper(s: State, deep: State)
      requires IsState(tree, s)
      modifies this`histories
      ensures histories == SaveHistory(tree, old(histories), s, deep)
      decreases tree.depth[s]
    {
      if s != ROOT && tree.parent[s] != ROOT {
        var p := tree.parent[s];
        match tree.strategy[p] {
          case NoHistory =>
          case Shallow => histories := histories[p := s];
          case Deep => histories := histories[p := deep];
        }
        if HistoryAbove(tree, p) {
          SetHistorySuper(p, deep);
        }
      }
    }

    method InitOf(s: State, init: Initializer)
      requires IsState(tree, s) && pending.None? && HistoryOk(tree, histories)
      modifies this`pending, this`histories, this`trace
      ensures pending.Some? ==>
        IsState(tree, pending.value.target) && IsChild(tree, pending.value.target, s) && pending.value.target != s
      ensures s == ROOT ==> pending.None?
      ensures histories == if init == ParameterInit then old(histories) else old(histories) - {s}
      ensures if init == HistoryInit && s in old(histories)
              then trace == old(trace) && pending == Some(Request(old(histories)[s], DefaultInit))
              else trace == old(trace) + [Init(s)]
    {
      if init == HistoryInit && s in histories {
        pending := Some(Request(histories[s], DefaultInit));
      } else {
        pending := UserInit(s);
      }
      if init != ParameterInit {
        histories := histories - {s};
      }
    }

    // ----- Transitions -----

    /** Exits, history records and entries on the way to another state. */
    method Move(to: State)
      requires Valid() && current.Some? && IsState(tree, to)
      modifies this`current, this`histories, this`boxes, this`trace
      ensures Active(to) && current == Some(to)
      ensures trace == old(trace) + TransitionTrace(tree, old(current.value), to)
      ensures HistoryOk(tree, histories)
      ensures histories == SaveHistory(tree, old(histories), old(current.value), old(current.value))
    {
      var from := current.value;
      LeavingNeedsBoxes(from, to);
      ExitOf(from, to);
      SaveHistoryKeepsHistoryOk(tree, histories, from);
      SetHistorySuper(from, from);
      current := Some(to);
      EntryOf(to, from, true);
      BoxesAfterTransition(old(boxes), from, to);
      ReachesAfterTransition(tree, old(trace), from, to);
      assert trace == old(trace) + TransitionTrace(tree, from, to);
    }

    /**
     The body of the inner loop: performs the pending transition. Then the target's history is
     followed, if that is what was asked for and there is one, or else its init action is called;
     and the history is used up, unless init was called with parameters.
     */
    method Transition()
      requires Valid() && current.Some? && pending.Some?
      modifies this`current, this`pending, this`histories, this`boxes, this`trace
      ensures Valid() && current == Some(old(pending.value.target))
      ensures
        var from, to, init := old(current.value), old(pending.value.target), old(pending.value.init);
        var done, h := old(trace) + TransitionTrace(tree, from, to), SaveHistory(tree, old(histories), from, from);
        && (if init == HistoryInit && to in h
            then trace == done && pending == Some(Request(h[to], DefaultInit))
            else trace == done + [Init(to)])
        && histories == (if init == ParameterInit then h else h - {to})
      ensures pending.Some? ==>
        IsChild(tree, pending.value.target, current.value) && pending.value.target != current.value
      ensures current == Some(ROOT) ==> pending.None?
      ensures forall a: State :: a != current.value ==>
        Records(tree, old(histories), histories, old(current.value), old(current.value), a)
      ensures Handlings(trace) == Handlings(old(trace))
    {
      var from, to, init := current.value, pending.value.target, pending.value.init;
      Move(to);
      pending := None;
      TransitionHandlesNothing(tree, old(trace), from, to);
      ReachesAfterUserCall(tree, trace, to, Init(to));
      OneHandling(trace, Init(to));
      InitOf(to, init);
      forall a: State | a != to
        ensures Records(tree, old(histories), histories, from, from, a)
      {
        SaveHistoryRecords(tree, old(histories), from, from, a);
      }
    }

    /** A transition on the way down to goal, once the machine is under way there. */
    method NextTransition(ghost goal: State, ghost underWay: bool)
      requires Valid() && current.Some? && pending.Some? && IsState(tree, goal)
      requires underWay ==> IsChild(tree, pending.value.target, goal)
      modifies this`current, this`pending, this`histories, this`boxes, this`trace
      ensures Valid() && current == Some(old(pending.value.target)) && Handlings(trace) == Handlings(old(trace))
      ensures
        var from, to, init := old(current.value), old(pending.value.target), old(pending.value.init);
        var done, h := old(trace) + TransitionTrace(tree, from, to), SaveHistory(tree, old(histories), from, from);
        if init == HistoryInit && to in h
        then trace == done && pending == Some(Request(h[to], DefaultInit))
        else trace == done + [Init(to)]
      ensures current == Some(ROOT) ==> pending.None?
      ensures underWay ==> IsChild(tree, current.value, goal)
      ensures underWay && pending.Some? ==> IsChild(tree, pending.value.target, goal)
      ensures pending.Some? ==> LevelsBelow(tree, pending.value.target) < LevelsBelow(tree, current.value)
    {
      ghost var target := pending.value.target;
      Transition();
      if pending.Some? {
        ChainDescends(tree, target, pending.value.target);
        if underWay {
          IsChildTransitive(tree, pending.value.target, target, goal);
        }
      }
    }

    /**
     The calls made since `before` begin with the exits and entries of the transition requested,
     and then follow the target's history, if that was asked for and there is one, or call its
     init action. Undisturbed, the machine is in the state to which this leads, or below it.
     */
    ghost predicate Performed(before: seq<Action>, from: State, r: Request, h: Histories, undisturbed: bool)
      requires IsState(tree, from) && IsState(tree, r.target)
      reads this`current, this`trace
    {
      var done := before + TransitionTrace(tree, from, r.target);
      && (undisturbed ==> current.Some? && IsState(tree, current.value) && IsChild(tree, current.value, r.target))
      && if r.init == HistoryInit && r.target in h then
           && IsState(tree, h[r.target]) && done + TransitionTrace(tree, r.target, h[r.target]) <= trace
           && (undisturbed ==> IsChild(tree, current.value, h[r.target]))
         else done + [Init(r.target)] <= trace
    }

    /**
     The inner loop: init actions may change the state again, but only further down. A transition
     by history comes to rest in the recorded state or below it, any other in its target or below.
     */
    method PerformPending()
      requires Valid() && current.Some?
      modifies this`current, this`pending, this`histories, this`boxes, this`trace
      ensures Valid() && current.Some? && pending.None?
      ensures old(pending) == None ==> current == old(current) && trace == old(trace) && histories == old(histories)
      ensures old(pending).Some? ==>
        var from := old(current.value);
        Performed(old(trace), from, old(pending.value), SaveHistory(tree, old(histories), from, from), true)
      ensures old(pending).Some? && old(pending.value.target) == ROOT ==> current == Some(ROOT)
      ensures old(trace) <= trace && Handlings(trace) == Handlings(old(trace))
    {
      if pending.None? {
        return;
      }
      ghost var from, to, init := current.value, pending.value.target, pending.value.init;
      ghost var done, h := trace + TransitionTrace(tree, from, to), SaveHistory(tree, histories, from, from);
      SaveHistoryKeepsHistoryOk(tree, histories, from);
      ghost var byHistory := init == HistoryInit && to in h;
      ghost var goal := if byHistory then h[to] else to;
      assert IsState(tree, goal) && IsChild(tree, goal, to);
      ghost var calls := done + if byHistory then TransitionTrace(tree, to, goal) else [Init(to)];
      ghost var turns: nat := 0;
      while pending.Some?
        invariant Valid() && current.Some? && Handlings(trace) == Handlings(old(trace))
        invariant turns == 0 ==> pending == old(pending) && current == old(current) && trace == old(trace)
        invariant turns == 0 ==> histories == old(histories)
        invariant turns == 1 && byHistory ==> trace == done && current == Some(to) && pending.Some?
        invariant turns > 1 || (turns == 1 && !byHistory) ==> calls <= trace
        invariant turns > 0 ==> if pending.Some? then IsChild(tree, pending.value.target, goal)
                                else IsChild(tree, current.value, goal)
        invariant turns == 1 && byHistory ==> pending.value.target == goal
        invariant turns > 0 && to == ROOT ==> pending == None && current == Some(ROOT)
        decreases if pending.Some? then 1 + LevelsBelow(tree, pending.value.target) else 0
      {
        NextTransition(goal, turns > 0 || !byHistory);
        turns := turns + 1;
      }
      if byHistory {
        IsChildTransitive(tree, current.value, goal, to);
      }
    }

    /** One turn of the outer loop: what is pending is performed, and then a pending event handled. */
    method Turn() returns (handled: bool)
      requires Valid() && current.Some?
      modifies this`current, this`pending, this`pendingEvent, this`histories, this`boxes, this`trace
      ensures Valid() && current.Some? && old(trace) <= trace
      ensures handled <==> old(pendingEvent)
      ensures !handled ==> pending.None? && !pendingEvent
      ensures Handlings(trace) == Handlings(old(trace)) + if handled then 1 else 0
      ensures old(pending).None? && handled ==> trace == old(trace) + [Handle(old(current.value))]
      ensures old(pending).Some? ==>
        var from := old(current.value);
        Performed(old(trace), from, old(pending.value), SaveHistory(tree, old(histories), from, from), !handled)
      ensures old(pending).Some? && old(pending.value.target) == ROOT ==> current == Some(ROOT)
    {
      PerformPending();
      handled := pendingEvent;
      if pendingEvent {
        pendingEvent := false;
        ReachesAfterUserCall(tree, trace, current.value, Handle(current.value));
        OneHandling(trace, Handle(current.value));
        pending, pendingEvent := UserHandler(current.value);
      }
    }

    /**
     Performs pending transitions and events until nothing is pending, or for the given number of
     turns: a machine whose handlers always post another event never comes to rest, and this is
     how far it gets. Each turn but the last handles an event. What was pending at first is
     performed first; unless an event is handled, the machine stays where that led it.
     */
    method RattleOn(turns: nat) returns (rested: bool, handled: nat)
      requires Valid() && current.Some?
      modifies this`current, this`pending, this`pendingEvent, this`histories, this`boxes, this`trace
      ensures Valid() && current.Some? && old(trace) <= trace
      ensures rested <==> pending.None? && !pendingEvent
      ensures handled <= turns && (!rested ==> handled == turns)
      ensures Handlings(trace) == Handlings(old(trace)) + handled
      ensures old(pendingEvent) && turns > 0 ==> handled > 0
      ensures old(pending).None? && old(pendingEvent) && turns > 0 ==>
        old(trace) + [Handle(old(current.value))] <= trace
      ensures old(pending).Some? && turns > 0 ==>
        var from := old(current.value);
        Performed(old(trace), from, old(pending.value), SaveHistory(tree, old(histories), from, from), handled == 0)
      ensures old(pending).Some? && old(pending.value.target) == ROOT && !old(pendingEvent) && turns > 0 ==>
        rested && handled == 0 && current == Some(ROOT)
    {
      handled := 0;
      var left: nat := turns;
      while (pending.Some? || pendingEvent) && left > 0
        invariant Valid() && current.Some? && old(trace) <= trace && left <= turns
        invariant left == turns ==>
          && pending == old(pending) && pendingEvent == old(pendingEvent) && trace == old(trace)
          && current == old(current) && histories == old(histories)
        invariant handled <= turns - left && (pending.Some? || pendingEvent ==> handled == turns - left)
        invariant Handlings(trace) == Handlings(old(trace)) + handled
        invariant left < turns && old(pendingEvent) ==> handled > 0
        invariant left < turns && old(pending).None? && old(pendingEvent) ==>
          old(trace) + [Handle(old(current.value))] <= trace
        invariant left < turns && old(pending).Some? ==>
          var from := old(current.value);
          Performed(old(trace), from, old(pending.value), SaveHistory(tree, old(histories), from, from), handled == 0)
        invariant left < turns && old(pending).Some? && old(pending.value.target) == ROOT && !old(pendingEvent) ==>
          pending.None? && !pendingEvent && handled == 0 && current == Some(ROOT)
        decreases left
      {
        var posted := Turn();
        if posted {
          handled := handled + 1;
        }
        left := left - 1;
      }
      rested := pending.None? && !pendingEvent;
    }

    // ----- The machine's interface -----

    method SetState(target: State, init: Initializer, turns: nat) returns (rested: bool, handled: nat)
      requires Valid() && current.Some? && pending.None? && IsState(tree, target)
      modifies this`current, this`pending, this`pendingEvent, this`histories, this`boxes, this`trace
      ensures Valid() && current.Some? && old(trace) <= trace
      ensures rested <==> pending.None? && !pendingEvent
      ensures handled <= turns && (!rested ==> handled == turns)
      ensures Handlings(trace) == Handlings(old(trace)) + handled
      ensures turns > 0 ==>
        var from := old(current.value);
        Performed(old(trace), from, Request(target, init), SaveHistory(tree, old(histories), from, from), handled == 0)
      ensures target == ROOT && !old(pendingEvent) && turns > 0 ==> rested && handled == 0 && current == Some(ROOT)
    {
      pending := Some(Request(target, init));
      rested, handled := RattleOn(turns);
    }

    /** Starts in Root, where nothing is active, and goes to the given state; also after a shutdown. */
    method Start(target: State, init: Initializer, turns: nat) returns (rested: bool, handled: nat)
      requires Valid() && current.None? && pending.None? && !pendingEvent && IsState(tree, target)
      requires Replay(tree, [], trace) == Some([]) && BoxesOk([])
      modifies this`current, this`pending, this`pendingEvent, this`histories, this`boxes, this`trace
      ensures Valid() && current.Some? && old(trace) <= trace
      ensures rested <==> pending.None? && !pendingEvent
      ensures handled <= turns && (!rested ==> handled == turns)
      ensures Handlings(trace) == Handlings(old(trace)) + handled
      ensures turns > 0 ==> Performed(old(trace), ROOT, Request(target, init), old(histories), handled == 0)
      ensures turns > 0 ==> EntriesTo(target, |old(trace)|)
    {
      current := Some(ROOT);
      rested, handled := SetState(target, init, turns);
      if turns > 0 {
        StartEnters(old(trace), target);
      }
    }

    /** From the n-th on the calls are the entries of the superstates of target, outermost first, and of target. */
    ghost predicate EntriesTo(target: State, n: nat)
      requires IsState(tree, target)
      reads this`trace
    {
      var path := Path(tree, target);
      n + |path| <= |trace| && forall i :: 0 <= i < |path| ==> trace[n + i] == Entry(path[i])
    }

    lemma StartEnters(before: seq<Action>, target: State)
      requires IsState(tree, target) && before + TransitionTrace(tree, ROOT, target) <= trace
      ensures EntriesTo(target, |before|)
    {
      EntriesFromRoot(tree, target, true);
      assert TransitionTrace(tree, ROOT, target) == EntryTrace(tree, target, ROOT, true);
    }

    /** Leaves every active state: over the whole life of the machine each entry has its exit. */
    method Shutdown()
      requires Valid() && current.Some? && pending.None? && !pendingEvent
      modifies this`current, this`pending, this`pendingEvent, this`histories, this`boxes, this`trace
      ensures Valid() && current.None? && pending.None? && !pendingEvent && old(trace) <= trace
      ensures Replay(tree, [], trace) == Some([]) && BoxesOk([]) && Handlings(trace) == Handlings(old(trace))
    {
      var rested, handled := SetState(ROOT, DefaultInit, 1);
      current := None;
    }

    /** Forgets the histories of a state and of all its substates. */
    method ClearHistoryDeep(instance: State)
      requires Valid()
      modifies this`histories
      ensures Valid()
      ensures forall s: State ::
        s in histories <==> s in old(histories) && IsState(tree, s) && !IsChild(tree, s, instance)
      ensures forall s: State :: s in histories ==> histories[s] == old(histories)[s]
    {
      for i := 0 to |tree.parent|
        invariant forall s: State ::
          s in histories <==> s in old(histories) && (s < i ==> IsState(tree, s) && !IsChild(tree, s, instance))
        invariant forall s: State :: s in histories ==> histories[s] == old(histories)[s]
      {
        if IsChild(tree, i, instance) {
          histories := histories - {i};
        }
      }
    }
  }
}
