/** Reassembly of a fragmented datagram, whatever the order in which its fragments arrive. */
module Reassembly {

  newtype Offset = x: int | 0 <= x < 0x1_0000

  datatype Region = Region(beg: Offset, end: Offset, islast: bool)

  /** A datagram cut into non-empty consecutive pieces: piece i runs from cuts[i] to cuts[i + 1]. */
  datatype Datagram = Datagram(cuts: seq<Offset>)

  ghost predicate DatagramOk(d: Datagram) {
    && |d.cuts| >= 2 && d.cuts[0] == 0
    && forall i, j :: 0 <= i < j < |d.cuts| ==> d.cuts[i] < d.cuts[j]
  }

  function Pieces(d: Datagram): int {
    |d.cuts| - 1
  }

  function Piece(d: Datagram, i: nat): Region
    requires i < Pieces(d)
  {
    Region(d.cuts[i], d.cuts[i + 1], i == Pieces(d) - 1)
  }

  /** The pieces that have arrived are numbered by a set. */
  ghost predicate Arrived(d: Datagram, arrived: set<nat>) {
    DatagramOk(d) && forall i :: i in arrived ==> i < Pieces(d)
  }

  /** The first piece from the k-th on that has not arrived. */
  ghost function FirstGap(d: Datagram, arrived: set<nat>, k: nat): (m: nat)
    requires DatagramOk(d) && k <= Pieces(d)
    ensures k <= m <= Pieces(d) && (forall i :: k <= i < m ==> i in arrived)
    ensures m < Pieces(d) ==> m !in arrived
    decreases Pieces(d) - k
  {
    if k == Pieces(d) || k !in arrived then k else FirstGap(d, arrived, k + 1)
  }

  lemma GapIsUnique(d: Datagram, arrived: set<nat>, m: nat)
    requires DatagramOk(d) && m <= Pieces(d) && (forall i :: 0 <= i < m ==> i in arrived)
    requires m < Pieces(d) ==> m !in arrived
    ensures FirstGap(d, arrived, 0) == m
  {
  }

  /** A piece before the m-th ends by the m-th cut, a later one begins after it, and no piece ends at 0. */
  lemma CutsAreOrdered(d: Datagram, id: nat, m: nat)
    requires DatagramOk(d) && id < Pieces(d) && m <= Pieces(d)
    ensures id < m ==> Piece(d, id).beg < Piece(d, id).end <= d.cuts[m]
    ensures id == m ==> Piece(d, id).beg == d.cuts[m]
    ensures id > m ==> d.cuts[m] < Piece(d, id).beg < Piece(d, id).end
    ensures Piece(d, id).end > 0
  {
    assert d.cuts[0] < d.cuts[id + 1];
  }

  class ReassemblyBuffer {
    var main: Region
    var fragments: seq<Region>
    ghost var ids: seq<nat>  // which piece each stored fragment is

    /**
     * main covers the first m pieces; the stored fragments are pieces that have arrived, among
     * them all from the m-th on.
     */
    ghost predicate Covers(d: Datagram, arrived: set<nat>, m: nat)
      reads this
    {
      && Arrived(d, arrived) && m <= Pieces(d)
      && main == Region(0, d.cuts[m], m == Pieces(d))
      && (forall i :: 0 <= i < m ==> i in arrived)
      && |ids| == |fragments|
      && (forall k :: 0 <= k < |ids| ==> ids[k] in arrived && fragments[k] == Piece(d, ids[k]))
      && (forall i :: i in arrived && i >= m ==> i in ids)
    }

    /** Between two calls, what is stored lies beyond a gap. */
    ghost predicate Holds(d: Datagram, arrived: set<nat>)
      reads this
    {
      && DatagramOk(d)
      && Covers(d, arrived, FirstGap(d, arrived, 0))
      && forall k :: 0 <= k < |ids| ==> ids[k] > FirstGap(d, arrived, 0)
    }

    constructor ()
      ensures main == Region(0, 0, false) && fragments == [] && ids == []
    {
      main, fragments, ids := Region(0, 0, false), [], [];
    }

    /** Takes the k-th stored fragment out of the list. */
    method EraseFragment(k: nat)
      requires k < |fragments| == |ids|
      modifies this`fragments, this`ids
      ensures fragments == old(fragments)[..k] + old(fragments)[k + 1..]
      ensures ids == old(ids)[..k] + old(ids)[k + 1..]
      ensures forall i :: i in old(ids) && i != old(ids)[k] ==> i in ids
    {
      assert ids == ids[..k] + [ids[k]] + ids[k + 1..];
      fragments := fragments[..k] + fragments[k + 1..];
      ids := ids[..k] + ids[k + 1..];
    }

    /** Merges stored fragments into main until a whole pass finds nothing to do. */
    method MergeFragments(ghost d: Datagram, ghost arrived: set<nat>, ghost start: nat)
      requires Covers(d, arrived, start)
      modifies this
      ensures Holds(d, arrived)
    {
      ghost var m: nat := start;
      var oncemore := true;
      while oncemore
        invariant Covers(d, arrived, m)
        invariant !oncemore ==> forall k :: 0 <= k < |ids| ==> ids[k] > m
        decreases |fragments|, oncemore
      {
        oncemore := false;
        ghost var size := |fragments|;
        var i := 0;
        while i < |fragments|
          invariant i <= |fragments| <= size && Covers(d, arrived, m)
          invariant oncemore ==> |fragments| < size
          invariant !oncemore ==> forall k :: 0 <= k < i ==> ids[k] > m
          decreases |fragments| - i
        {
          ghost var before := m;
          var deleteit;
          deleteit, m := Consider(d, arrived, m, i);
          if deleteit {
            oncemore := true;
          } else {
            i := i + 1;
          }
        }
      }
      assert m in arrived && m < Pieces(d) ==> m in ids;
      GapIsUnique(d, arrived, m);
    }

    /** One turn of the loop over the stored fragments: the i-th is merged, dropped as a duplicate, or kept. */
    method Consider(ghost d: Datagram, ghost arrived: set<nat>, ghost m: nat, i: nat)
        returns (deleteit: bool, ghost next: nat)
      requires Covers(d, arrived, m) && i < |fragments|
      modifies this
      ensures Covers(d, arrived, next)
      ensures deleteit <==> old(ids)[i] <= m
      ensures next == if old(ids)[i] == m then m + 1 else m
      ensures deleteit ==> ids == old(ids)[..i] + old(ids)[i + 1..]
      ensures !deleteit ==> ids == old(ids)
    {
      var frag := fragments[i];
      CutsAreOrdered(d, ids[i], m);
      var region := main;
      deleteit := true;
      next := m;
      if region.end == frag.beg {
        region := region.(end := frag.end);
        if frag.islast {
          region := region.(islast := true);
        }
        next := m + 1;
      } else if region.beg == frag.end {
        region := region.(beg := frag.beg);
      } else if region.beg <= frag.beg && region.end >= frag.end {
        // a duplicate of what main has
      } else {
        deleteit := false;
      }
      main := region;
      if deleteit {
        EraseFragment(i);
      }
    }

    /** Places the region of piece i: next to main, before it, aside, or nowhere because main has it. */
    method Merge(beg: Offset, end: Offset, islast: bool, ghost d: Datagram, ghost arrived: set<nat>, ghost i: nat)
      requires Holds(d, arrived) && i < Pieces(d) && Region(beg, end, islast) == Piece(d, i)
      modifies this
      ensures Holds(d, arrived + {i})
    {
      ghost var m := FirstGap(d, arrived, 0);
      CutsAreOrdered(d, i, m);
      var region, grown := main, true;
      if region.end == beg {
        region := region.(end := end);
        if islast {
          region := region.(islast := true);
        }
        m := m + 1;
      } else if region.beg == end {
        region := region.(beg := beg);
      } else {
        grown := false;
        if region.end < beg || region.beg > end {
          fragments := fragments + [Region(beg, end, islast)];
          ids := ids + [i];
        }
      }
      main := region;
      if grown && fragments != [] {
        MergeFragments(d, arrived + {i}, m);
      } else {
        GapIsUnique(d, arrived + {i}, m);
      }
    }

    /** True exactly when the arrival of this piece leaves none missing. */
    method AddFragment(beg: Offset, end: Offset, islast: bool, ghost d: Datagram, ghost arrived: set<nat>, ghost i: nat)
        returns (complete: bool)
      requires Holds(d, arrived) && i < Pieces(d) && Region(beg, end, islast) == Piece(d, i)
      modifies this
      ensures Holds(d, arrived + {i})
      ensures complete == Complete(d, arrived + {i})
      ensures complete ==> main.end == d.cuts[Pieces(d)] && fragments == []
    {
      Merge(beg, end, islast, d, arrived, i);
      complete := main.beg == 0 && main.islast;
      ghost var m := FirstGap(d, arrived + {i}, 0);
      assert complete <==> m == Pieces(d);
      assert |ids| > 0 ==> ids[0] < Pieces(d);
    }

    /** The length of the whole datagram, once it is complete. */
    method GetTotalLength(ghost d: Datagram, ghost arrived: set<nat>) returns (length: Offset)
      requires Holds(d, arrived)
      ensures Complete(d, arrived) ==> length == d.cuts[Pieces(d)]
    {
      length := main.end;
    }
  }

  /** Every piece of the datagram is among those that have arrived. */
  predicate Complete(d: Datagram, arrived: set<nat>) {
    forall i: nat :: i < Pieces(d) ==> i in arrived
  }

  /** The pieces among the first n arrivals. */
  function Seen(order: seq<nat>, n: nat): (seen: set<nat>)
    requires n <= |order|
    ensures forall i :: i in seen <==> i in order[..n]
  {
    set i | i in order[..n]
  }

  /**
   * Whatever the order of arrival and however often a piece is repeated, the answer to the k-th
   * arrival is true exactly when every piece is among the first k + 1; and once some answer is
   * true the length reported is that of the datagram.
   */
  method Reassemble(d: Datagram, order: seq<nat>) returns (answers: seq<bool>, length: Offset)
    requires DatagramOk(d) && forall k :: 0 <= k < |order| ==> order[k] < Pieces(d)
    ensures |answers| == |order|
    ensures forall k :: 0 <= k < |order| ==> answers[k] == Complete(d, Seen(order, k + 1))
    ensures forall k :: 0 <= k < |order| && answers[k] ==> length == d.cuts[Pieces(d)]
  {
    var buffer := new ReassemblyBuffer();
    answers := [];
    while |answers| < |order|
      invariant fresh(buffer) && |answers| <= |order|
      invariant buffer.Holds(d, Seen(order, |answers|))
      invariant forall k :: 0 <= k < |answers| ==> answers[k] == Complete(d, Seen(order, k + 1))
      invariant forall k :: 0 <= k < |answers| && answers[k] ==> Complete(d, Seen(order, |answers|))
    {
      var n := |answers|;
      var piece := Piece(d, order[n]);
      var complete := buffer.AddFragment(piece.beg, piece.end, piece.islast, d, Seen(order, n), order[n]);
      assert order[..n + 1] == order[..n] + [order[n]];
      assert Seen(order, n + 1) == Seen(order, n) + {order[n]};
      answers := answers + [complete];
    }
    length := buffer.GetTotalLength(d, Seen(order, |order|));
  }
}
