/** The state tree of a machine, and what a transition between two of its states does, as values. */
module MachoTree {
  import opened Wrappers

  /** States are known by their ID, the index into the machine's instances; Root is always 0. */
  type State = nat

  const ROOT: State := 0

  datatype HistoryStrategy = NoHistory | Shallow | Deep

  /**
   keepsBox tells the states whose box survives an exit: persistent ones, and those that share
   the empty box.
   */
  datatype Tree = Tree(parent: seq<State>, depth: seq<nat>, strategy: seq<HistoryStrategy>, keepsBox: seq<bool>)

  ghost predicate TreeOk(t: Tree) {
    && |t.parent| == |t.depth| == |t.strategy| == |t.keepsBox| > 0
    && t.depth[ROOT] == 0
    && forall s :: 0 < s < |t.parent| ==> t.parent[s] < |t.parent| && t.depth[s] == t.depth[t.parent[s]] + 1
  }

  ghost predicate IsState(t: Tree, s: State) {
    TreeOk(t) && s < |t.parent|
  }

  /** a is s or a superstate of s. */
  predicate IsChild(t: Tree, s: State, a: State)
    requires IsState(t, s)
    decreases t.depth[s]
  {
    s == a || (s != ROOT && IsChild(t, t.parent[s], a))
  }

  /** The states that are active when s is current: from the top state down to s, without Root. */
  ghost function Path(t: Tree, s: State): seq<State>
    requires IsState(t, s)
    decreases t.depth[s]
  {
    if s == ROOT then [] else Path(t, t.parent[s]) + [s]
  }

  // ----- Paths and superstates -----

  lemma {:induction false} EveryStateIsUnderRoot(t: Tree, s: State)
    requires IsState(t, s)
    ensures IsChild(t, s, ROOT)
    decreases t.depth[s]
  {
    if s == ROOT {
    } else {
      EveryStateIsUnderRoot(t, t.parent[s]);
    }
  }

  /** The path of a state is made of its superstates. */
  lemma {:induction false} PathIsSuperstates(t: Tree, s: State, a: State)
    requires IsState(t, s) && a != ROOT
    ensures a in Path(t, s) <==> IsChild(t, s, a)
    decreases t.depth[s]
  {
    if s == ROOT {
    } else {
      PathIsSuperstates(t, t.parent[s], a);
    }
  }

  lemma {:induction false} PathOmitsRoot(t: Tree, s: State)
    requires IsState(t, s)
    ensures ROOT !in Path(t, s)
    decreases t.depth[s]
  {
    if s == ROOT {
    } else {
      PathOmitsRoot(t, t.parent[s]);
    }
  }

  lemma {:induction false} SuperstateIsShallower(t: Tree, s: State, a: State)
    requires IsState(t, s) && IsChild(t, s, a)
    ensures IsState(t, a) && t.depth[a] <= t.depth[s] && (a != s ==> t.depth[a] < t.depth[s])
    decreases t.depth[s]
  {
    if s == a {
    } else {
      SuperstateIsShallower(t, t.parent[s], a);
    }
  }

  lemma {:induction false} IsChildTransitive(t: Tree, s: State, a: State, b: State)
    requires IsState(t, s) && IsChild(t, s, a) && IsState(t, a) && IsChild(t, a, b)
    ensures IsChild(t, s, b)
    decreases t.depth[s]
  {
    if s == a {
    } else {
      IsChildTransitive(t, t.parent[s], a, b);
    }
  }

  // ----- What the machine calls on the user's states -----

  datatype Action = Entry(s: State) | Exit(s: State) | Init(s: State) | Handle(s: State)

  /** The exits of a transition from s to next: s and its superstates, while they do not contain next. */
  ghost function ExitTrace(t: Tree, s: State, next: State): seq<Action>
    requires IsState(t, s) && IsState(t, next)
    decreases t.depth[s]
  {
    if s == ROOT then []
    else if s == next || !IsChild(t, next, s) then [Exit(s)] + ExitTrace(t, t.parent[s], next)
    else []
  }

  /** Its entries: those superstates of s that do not contain the previous state, and s itself. */
  ghost function EntryTrace(t: Tree, s: State, previous: State, first: bool): seq<Action>
    requires IsState(t, s) && IsState(t, previous)
    decreases t.depth[s]
  {
    if s == ROOT then []
    else if first || !IsChild(t, previous, s) then EntryTrace(t, t.parent[s], previous, false) + [Entry(s)]
    else []
  }

  ghost function TransitionTrace(t: Tree, from: State, to: State): seq<Action>
    requires IsState(t, from) && IsState(t, to)
  {
    ExitTrace(t, from, to) + EntryTrace(t, to, from, true)
  }

  /**
   The states entered and not yet left, outermost first, after some actions; none if an entry
   does not go one level down from the innermost of them, if an exit is not from the innermost,
   or if another state is initialised or handles an event.
   */
  ghost function Replay(t: Tree, active: seq<State>, actions: seq<Action>): Option<seq<State>>
    requires TreeOk(t)
    decreases |actions|
  {
    if actions == [] then Some(active)
    else
      var top := if active == [] then ROOT else active[|active| - 1];
      match actions[0]
      case Entry(s) =>
        if s != ROOT && IsState(t, s) && t.parent[s] == top then Replay(t, active + [s], actions[1..]) else None
      case Exit(s) =>
        if active != [] && s == top then Replay(t, active[..|active| - 1], actions[1..]) else None
      case Init(s) =>
        if s == top then Replay(t, active, actions[1..]) else None
      case Handle(s) =>
        if s == top then Replay(t, active, actions[1..]) else None
  }

  lemma {:induction false} ReplayConcat(t: Tree, active: seq<State>, a: seq<Action>, b: seq<Action>)
    requires TreeOk(t)
    ensures Replay(t, active, a + b) ==
      match Replay(t, active, a)
      case None => None
      case Some(between) => Replay(t, between, b)
    decreases |a|
  {
    if a == [] {
      assert a + b == b;
    } else {
      assert (a + b)[0] == a[0] && (a + b)[1..] == a[1..] + b;
      match a[0]
      case Entry(s) => ReplayConcat(t, active + [s], a[1..], b);
      case Exit(s) =>
        if active != [] {
          ReplayConcat(t, active[..|active| - 1], a[1..], b);
        }
      case Init(s) => ReplayConcat(t, active, a[1..], b);
      case Handle(s) => ReplayConcat(t, active, a[1..], b);
    }
  }

  /** The innermost state that a transition from s to next does not leave: a proper superstate of next, or Root. */
  ghost function Pivot(t: Tree, s: State, next: State): State
    requires IsState(t, s) && IsState(t, next)
    decreases t.depth[s]
  {
    if s == ROOT then ROOT
    else if s == next || !IsChild(t, next, s) then Pivot(t, t.parent[s], next)
    else s
  }

  lemma PathTop(t: Tree, s: State)
    requires IsState(t, s)
    ensures s != ROOT ==> Path(t, s) != [] && Path(t, s)[|Path(t, s)| - 1] == s
    ensures s != ROOT ==> Path(t, s)[..|Path(t, s)| - 1] == Path(t, t.parent[s])
    ensures s == ROOT ==> Path(t, s) == []
  {
  }

  /** The exits take the active states, innermost first, down to the pivot. */
  lemma {:induction false} ExitsReachPivot(t: Tree, s: State, next: State)
    requires IsState(t, s) && IsState(t, next)
    ensures IsState(t, Pivot(t, s, next))
    ensures Replay(t, Path(t, s), ExitTrace(t, s, next)) == Some(Path(t, Pivot(t, s, next)))
    decreases t.depth[s]
  {
    if s == ROOT {
    } else if s == next || !IsChild(t, next, s) {
      ExitsReachPivot(t, t.parent[s], next);
      PathTop(t, s);
      var e := ExitTrace(t, s, next);
      assert e[1..] == ExitTrace(t, t.parent[s], next);
    }
  }

  /** Where the entries stop on their way up from s: at a superstate of the previous state. */
  ghost function EntryBase(t: Tree, s: State, previous: State, first: bool): State
    requires IsState(t, s) && IsState(t, previous)
    decreases t.depth[s]
  {
    if s == ROOT then ROOT
    else if first || !IsChild(t, previous, s) then EntryBase(t, t.parent[s], previous, false)
    else s
  }

  lemma {:induction false} EntriesFromBase(t: Tree, s: State, previous: State, first: bool)
    requires IsState(t, s) && IsState(t, previous)
    ensures IsState(t, EntryBase(t, s, previous, first))
    ensures Replay(t, Path(t, EntryBase(t, s, previous, first)), EntryTrace(t, s, previous, first)) == Some(Path(t, s))
    decreases t.depth[s]
  {
    if s == ROOT {
    } else if first || !IsChild(t, previous, s) {
      EntriesFromBase(t, t.parent[s], previous, false);
      var b := Path(t, EntryBase(t, s, previous, first));
      ReplayConcat(t, b, EntryTrace(t, t.parent[s], previous, false), [Entry(s)]);
      PathTop(t, t.parent[s]);
      assert Replay(t, Path(t, t.parent[s]) + [s], [Entry(s)][1..]) == Some(Path(t, s));
    }
  }

  /** Both searches meet: the deepest proper superstate of `to` that is a superstate of, or equal to, `from`. */
  ghost predicate IsPivot(t: Tree, from: State, to: State, p: State)
    requires IsState(t, from) && IsState(t, to)
  {
    && IsState(t, p) && IsChild(t, from, p) && (p == ROOT || (IsChild(t, to, p) && p != to))
    && forall q :: q != ROOT && IsChild(t, from, q) && IsChild(t, to, q) && q != to ==> IsChild(t, p, q)
  }

  lemma {:induction false} PivotIsPivot(t: Tree, s: State, next: State)
    requires IsState(t, s) && IsState(t, next)
    ensures IsState(t, Pivot(t, s, next)) && IsChild(t, s, Pivot(t, s, next))
    ensures Pivot(t, s, next) == ROOT || (IsChild(t, next, Pivot(t, s, next)) && Pivot(t, s, next) != next)
    ensures forall q :: q != ROOT && IsChild(t, s, q) && IsChild(t, next, q) && q != next ==>
      IsChild(t, Pivot(t, s, next), q)
    decreases t.depth[s]
  {
    if s == ROOT {
    } else if s == next || !IsChild(t, next, s) {
      PivotIsPivot(t, t.parent[s], next);
    }
  }

  lemma {:induction false} EntryBaseIsDeepest(t: Tree, s: State, previous: State)
    requires IsState(t, s) && IsState(t, previous)
    ensures var b := EntryBase(t, s, previous, false);
      && IsState(t, b) && IsChild(t, s, b) && IsChild(t, previous, b)
      && forall q :: q != ROOT && IsChild(t, s, q) && IsChild(t, previous, q) ==> IsChild(t, b, q)
    decreases t.depth[s]
  {
    if s == ROOT {
      EveryStateIsUnderRoot(t, previous);
    } else if !IsChild(t, previous, s) {
      EntryBaseIsDeepest(t, t.parent[s], previous);
    }
  }

  lemma EntryBaseIsPivot(t: Tree, from: State, to: State)
    requires IsState(t, from) && IsState(t, to)
    ensures IsPivot(t, from, to, EntryBase(t, to, from, true))
  {
    EveryStateIsUnderRoot(t, from);
    if to != ROOT {
      EntryBaseIsDeepest(t, t.parent[to], from);
      SuperstateIsShallower(t, t.parent[to], EntryBase(t, to, from, true));
    }
  }

  lemma PivotIsUnique(t: Tree, from: State, to: State, p: State, q: State)
    requires IsState(t, from) && IsState(t, to) && IsPivot(t, from, to, p) && IsPivot(t, from, to, q)
    ensures p == q
  {
    if p != ROOT {
      SuperstateIsShallower(t, q, p);
    }
    if q != ROOT {
      SuperstateIsShallower(t, p, q);
    }
  }

  /** A transition turns the active states of its source into those of its target, one level at a time. */
  lemma TransitionReplays(t: Tree, from: State, to: State)
    requires IsState(t, from) && IsState(t, to)
    ensures Replay(t, Path(t, from), TransitionTrace(t, from, to)) == Some(Path(t, to))
  {
    ExitsReachPivot(t, from, to);
    PivotIsPivot(t, from, to);
    assert IsPivot(t, from, to, Pivot(t, from, to));
    EntryBaseIsPivot(t, from, to);
    PivotIsUnique(t, from, to, Pivot(t, from, to), EntryBase(t, to, from, true));
    EntriesFromBase(t, to, from, true);
    ReplayConcat(t, Path(t, from), ExitTrace(t, from, to), EntryTrace(t, to, from, true));
  }

  /** It leaves exactly the superstates of its source that do not properly contain its target. */
  lemma {:induction false} ExitedStates(t: Tree, s: State, next: State, q: State)
    requires IsState(t, s) && IsState(t, next)
    ensures Exit(q) in ExitTrace(t, s, next) <==>
      q != ROOT && IsChild(t, s, q) && (q == next || !IsChild(t, next, q))
    decreases t.depth[s]
  {
    if s == ROOT {
    } else {
      if s == next || !IsChild(t, next, s) {
        ExitedStates(t, t.parent[s], next, q);
      } else if IsChild(t, s, q) {
        IsChildTransitive(t, next, s, q);
        SuperstateIsShallower(t, next, s);
        SuperstateIsShallower(t, s, q);
      }
    }
  }

  /** It enters exactly its target and the superstates of its target that do not contain its source. */
  lemma {:induction false} EnteredStates(t: Tree, s: State, previous: State, first: bool, q: State)
    requires IsState(t, s) && IsState(t, previous)
    ensures Entry(q) in EntryTrace(t, s, previous, first) <==>
      q != ROOT && IsChild(t, s, q) && ((first && q == s) || !IsChild(t, previous, q))
    decreases t.depth[s]
  {
    if s == ROOT {
    } else {
      if first || !IsChild(t, previous, s) {
        EnteredStates(t, t.parent[s], previous, false, q);
        if IsChild(t, t.parent[s], s) {
          SuperstateIsShallower(t, t.parent[s], s);
        }
      } else if IsChild(t, s, q) {
        IsChildTransitive(t, previous, s, q);
      }
    }
  }

  /** From Root, the entries are those of the whole path. */
  lemma {:induction false} EntriesFromRoot(t: Tree, s: State, first: bool)
    requires IsState(t, s)
    ensures var e, path := EntryTrace(t, s, ROOT, first), Path(t, s);
      |e| == |path| && forall i :: 0 <= i < |path| ==> e[i] == Entry(path[i])
    decreases t.depth[s]
  {
    if s == ROOT {
    } else {
      EntriesFromRoot(t, t.parent[s], false);
    }
  }

  // ----- History -----

  type Histories = map<State, State>

  /** Some proper superstate keeps a history, so that the virtual _setHistorySuper bubbles. */
  predicate HistoryAbove(t: Tree, s: State)
    requires IsState(t, s)
    decreases t.depth[s]
  {
    s != ROOT && t.parent[s] != ROOT && (t.strategy[t.parent[s]] != NoHistory || HistoryAbove(t, t.parent[s]))
  }

  /** What setHistorySuper does at s when the state left is deep. */
  function SaveHistory(t: Tree, h: Histories, s: State, deep: State): Histories
    requires IsState(t, s)
    decreases t.depth[s]
  {
    if s == ROOT || t.parent[s] == ROOT then h
    else
      var p := t.parent[s];
      var h' := match t.strategy[p]
                case NoHistory => h
                case Shallow => h[p := s]
                case Deep => h[p := deep];
      if HistoryAbove(t, p) then SaveHistory(t, h', p, deep) else h'
  }

  /** The substate of a on the way down to s. */
  function ChildTowards(t: Tree, s: State, a: State): State
    requires IsState(t, s) && IsChild(t, s, a) && s != a
    decreases t.depth[s]
  {
    if t.parent[s] == a then s else ChildTowards(t, t.parent[s], a)
  }

  /** The history that leaving s leaves in a. */
  ghost predicate Records(t: Tree, before: Histories, after: Histories, s: State, deep: State, a: State)
    requires IsState(t, s)
  {
    if a != ROOT && IsChild(t, s, a) && a != s && IsState(t, a) && t.strategy[a] != NoHistory then
      a in after && after[a] == if t.strategy[a] == Deep then deep else ChildTowards(t, s, a)
    else
      (a in after <==> a in before) && (a in after ==> after[a] == before[a])
  }

  lemma {:induction false} NoHistoryAbove(t: Tree, s: State, a: State)
    requires IsState(t, s) && !HistoryAbove(t, s) && IsChild(t, s, a) && a != s && a != ROOT
    ensures IsState(t, a) && t.strategy[a] == NoHistory
    decreases t.depth[s]
  {
    if t.parent[s] == a {
    } else {
      SuperstateIsShallower(t, t.parent[s], a);
      if t.parent[s] != ROOT {
        NoHistoryAbove(t, t.parent[s], a);
      }
    }
  }

  /**
   Every proper superstate that keeps a history records the state left (deep), or its own
   substate on the way there (shallow); all other histories stay as they were.
   */
  lemma {:induction false} SaveHistoryRecords(t: Tree, h: Histories, s: State, deep: State, a: State)
    requires IsState(t, s)
    ensures Records(t, h, SaveHistory(t, h, s, deep), s, deep, a)
    decreases t.depth[s]
  {
    assert s != ROOT && a != s ==> IsChild(t, s, a) == IsChild(t, t.parent[s], a);
    if s != ROOT && t.parent[s] != ROOT {
      var p := t.parent[s];
      assert IsChild(t, p, p) && IsChild(t, s, p);
      var h' := match t.strategy[p]
                case NoHistory => h
                case Shallow => h[p := s]
                case Deep => h[p := deep];
      SaveHistoryRecords(t, h', p, deep, a);
      if !HistoryAbove(t, p) && a != ROOT && a != p && IsChild(t, p, a) {
        NoHistoryAbove(t, p, a);
      }
      if IsChild(t, p, s) {
        SuperstateIsShallower(t, p, s);
      }
    }
  }

  /** A stored history is always a proper substate. */
  ghost predicate HistoryOk(t: Tree, h: Histories) {
    && TreeOk(t)
    && forall a :: a in h ==> a != ROOT && IsState(t, a) && IsState(t, h[a]) && h[a] != a && IsChild(t, h[a], a)
  }

  lemma {:induction false} ChildTowardsIsChild(t: Tree, s: State, a: State)
    requires IsState(t, s) && IsChild(t, s, a) && s != a
    ensures IsState(t, ChildTowards(t, s, a)) && ChildTowards(t, s, a) != ROOT
    ensures t.parent[ChildTowards(t, s, a)] == a && IsChild(t, s, ChildTowards(t, s, a))
    decreases t.depth[s]
  {
    if t.parent[s] == a {
    } else {
      ChildTowardsIsChild(t, t.parent[s], a);
    }
  }

  lemma SaveHistoryKeepsHistoryOk(t: Tree, h: Histories, s: State)
    requires IsState(t, s) && HistoryOk(t, h)
    ensures HistoryOk(t, SaveHistory(t, h, s, s))
  {
    var h' := SaveHistory(t, h, s, s);
    forall a | a in h'
      ensures a != ROOT && IsState(t, a) && IsState(t, h'[a]) && h'[a] != a && IsChild(t, h'[a], a)
    {
      SaveHistoryRecords(t, h, s, s, a);
      if a != ROOT && IsChild(t, s, a) && a != s && IsState(t, a) && t.strategy[a] != NoHistory {
        ChildTowardsIsChild(t, s, a);
        SuperstateIsShallower(t, ChildTowards(t, s, a), a);
      }
    }
  }

  // ----- A run of the machine, as the sequence of its calls -----

  /** s is current after these calls. */
  ghost predicate Reaches(t: Tree, calls: seq<Action>, s: State) {
    IsState(t, s) && Replay(t, [], calls) == Some(Path(t, s))
  }

  lemma ReachesAfterTransition(t: Tree, calls: seq<Action>, from: State, to: State)
    requires Reaches(t, calls, from) && IsState(t, to)
    ensures Reaches(t, calls + TransitionTrace(t, from, to), to)
  {
    TransitionReplays(t, from, to);
    ReplayConcat(t, [], calls, TransitionTrace(t, from, to));
  }

  lemma ReachesAfterUserCall(t: Tree, calls: seq<Action>, s: State, call: Action)
    requires Reaches(t, calls, s) && (call == Init(s) || call == Handle(s))
    ensures Reaches(t, calls + [call], s)
  {
    ReplayConcat(t, [], calls, [call]);
    PathTop(t, s);
    assert Replay(t, Path(t, s), [call][1..]) == Some(Path(t, s));
  }

  /** How many events have been handled. */
  ghost function Handlings(calls: seq<Action>): nat {
    if calls == [] then 0
    else Handlings(calls[..|calls| - 1]) + if calls[|calls| - 1].Handle? then 1 else 0
  }

  lemma {:induction false} NoHandlings(calls: seq<Action>, more: seq<Action>)
    requires forall i :: 0 <= i < |more| ==> !more[i].Handle?
    ensures Handlings(calls + more) == Handlings(calls)
    decreases |more|
  {
    if more == [] {
      assert calls + more == calls;
    } else {
      var last := |more| - 1;
      assert (calls + more)[..|calls + more| - 1] == calls + more[..last];
      NoHandlings(calls, more[..last]);
    }
  }

  lemma OneHandling(calls: seq<Action>, call: Action)
    ensures Handlings(calls + [call]) == Handlings(calls) + if call.Handle? then 1 else 0
  {
    assert (calls + [call])[..|calls|] == calls;
  }

  lemma {:induction false} ExitsHandleNothing(t: Tree, s: State, next: State)
    requires IsState(t, s) && IsState(t, next)
    ensures forall i :: 0 <= i < |ExitTrace(t, s, next)| ==> !ExitTrace(t, s, next)[i].Handle?
    decreases t.depth[s]
  {
    if s == ROOT {
    } else {
      ExitsHandleNothing(t, t.parent[s], next);
    }
  }

  lemma {:induction false} EntriesHandleNothing(t: Tree, s: State, previous: State, first: bool)
    requires IsState(t, s) && IsState(t, previous)
    ensures forall i :: 0 <= i < |EntryTrace(t, s, previous, first)| ==> !EntryTrace(t, s, previous, first)[i].Handle?
    decreases t.depth[s]
  {
    if s == ROOT {
    } else {
      EntriesHandleNothing(t, t.parent[s], previous, false);
    }
  }

  lemma TransitionHandlesNothing(t: Tree, calls: seq<Action>, from: State, to: State)
    requires IsState(t, from) && IsState(t, to)
    ensures Handlings(calls + TransitionTrace(t, from, to)) == Handlings(calls)
  {
    ExitsHandleNothing(t, from, to);
    EntriesHandleNothing(t, to, from, true);
    NoHandlings(calls, TransitionTrace(t, from, to));
  }

  // ----- Chained transitions go down -----

  ghost function Deepest(depths: seq<nat>): (d: nat)
    ensures forall i :: 0 <= i < |depths| ==> depths[i] <= d
  {
    if depths == [] then 0
    else
      var d := Deepest(depths[..|depths| - 1]);
      if d < depths[|depths| - 1] then depths[|depths| - 1] else d
  }

  /** How many levels there still are below s. */
  ghost function LevelsBelow(t: Tree, s: State): nat
    requires IsState(t, s)
  {
    Deepest(t.depth) - t.depth[s]
  }

  lemma ChainDescends(t: Tree, s: State, target: State)
    requires IsState(t, s) && IsState(t, target) && IsChild(t, target, s) && target != s
    ensures LevelsBelow(t, target) < LevelsBelow(t, s)
  {
    SuperstateIsShallower(t, target, s);
  }

  /** The calls of a run that starts in s and performs transitions to all the targets in turn. */
  ghost function RunTrace(t: Tree, s: State, targets: seq<State>): seq<Action>
    requires IsState(t, s) && forall i :: 0 <= i < |targets| ==> IsState(t, targets[i])
    decreases |targets|
  {
    if targets == [] then []
    else TransitionTrace(t, s, targets[0]) + RunTrace(t, targets[0], targets[1..])
  }

  /** Whatever the targets, a run leaves active just the superstates of the last one: none, if that is Root. */
  lemma {:induction false} RunsReplay(t: Tree, s: State, targets: seq<State>)
    requires IsState(t, s) && forall i :: 0 <= i < |targets| ==> IsState(t, targets[i])
    ensures Replay(t, Path(t, s), RunTrace(t, s, targets)) ==
      Some(Path(t, if targets == [] then s else targets[|targets| - 1]))
    decreases |targets|
  {
    if targets == [] {
    } else {
      TransitionReplays(t, s, targets[0]);
      RunsReplay(t, targets[0], targets[1..]);
      ReplayConcat(t, Path(t, s), TransitionTrace(t, s, targets[0]), RunTrace(t, targets[0], targets[1..]));
    }
  }
}
