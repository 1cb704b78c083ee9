/** Rank sequences: what the ordered and the relative insertion do to them, and the deadlines they encode. */
module Ranks {
  import opened Sequences

  function Sum(rs: seq<int>): int {
    if rs == [] then 0 else rs[0] + Sum(rs[1..])
  }

  /** Where an element of rank r goes: after every leading element whose rank, taken off r on the way in
      a relative list, does not exceed what is left of r. */
  function Position(rs: seq<int>, r: int, relative: bool): (k: nat)
    ensures k <= |rs|
  {
    if rs == [] || rs[0] > r then 0
    else 1 + Position(rs[1..], if relative then r - rs[0] else r, relative)
  }

  /** The rank the element is left with. */
  function Remainder(rs: seq<int>, r: int, relative: bool): int {
    if relative then r - Sum(rs[..Position(rs, r, true)]) else r
  }

  /** The ranks after an insertion: a relative list takes the newcomer's rank off its successor. */
  function InsertRank(rs: seq<int>, r: int, relative: bool): seq<int> {
    var k, d := Position(rs, r, relative), Remainder(rs, r, relative);
    var after := if relative && k < |rs| then rs[k := rs[k] - d] else rs;
    InsertAt(after, k, d)
  }

  /** The ranks after a removal: a relative list gives the leaver's rank to its successor. */
  function RemoveRank(rs: seq<int>, k: nat, relative: bool): seq<int>
    requires k < |rs|
  {
    Without(if relative && k + 1 < |rs| then rs[k + 1 := rs[k + 1] + rs[k]] else rs, k)
  }

  /** The absolute values a relative list encodes, counted from t. */
  function Absolute(rs: seq<int>, t: int): (ds: seq<int>)
    ensures |ds| == |rs|
  {
    if rs == [] then [] else [t + rs[0]] + Absolute(rs[1..], t + rs[0])
  }

  ghost predicate Sorted(ds: seq<int>) {
    forall i, j :: 0 <= i < j < |ds| ==> ds[i] <= ds[j]
  }

  /** Past every smaller or equal value, in front of the first greater one. */
  lemma {:induction false} PositionSplits(ds: seq<int>, d: int)
    ensures var k := Position(ds, d, false);
      && (forall i :: 0 <= i < k ==> ds[i] <= d)
      && (k < |ds| ==> d < ds[k])
  {
    if ds == [] || ds[0] > d {
    } else {
      PositionSplits(ds[1..], d);
      var k := Position(ds[1..], d, false);
      forall i | 0 <= i < k + 1
        ensures ds[i] <= d
      {
        assert i > 0 ==> ds[i] == ds[1..][i - 1];
      }
      assert k < |ds[1..]| ==> ds[1..][k] == ds[k + 1];
    }
  }

  /** In a sorted list the position is the only one that keeps it sorted with d behind its equals. */
  lemma PositionSorted(ds: seq<int>, d: int)
    requires Sorted(ds)
    ensures Sorted(InsertAt(ds, Position(ds, d, false), d))
    ensures forall i :: Position(ds, d, false) <= i < |ds| ==> d < ds[i]
  {
    PositionSplits(ds, d);
  }

  /** A list that is not relative keeps its order and every rank, and removing what was inserted gives it back. */
  lemma OrderedInsert(rs: seq<int>, r: int)
    requires Sorted(rs)
    ensures var k, out := Position(rs, r, false), InsertRank(rs, r, false);
      Sorted(out) && k < |out| && out[k] == r && RemoveRank(out, k, false) == rs
  {
    PositionSorted(rs, r);
    hide Sorted, Position;
  }

  lemma OrderedRemove(rs: seq<int>, k: nat)
    requires Sorted(rs) && k < |rs|
    ensures Sorted(RemoveRank(rs, k, false)) && InsertAt(RemoveRank(rs, k, false), k, rs[k]) == rs
  {
  }

  /** Inserting into a prefix-and-rest split: once i leading elements are passed, the rest decides. */
  lemma {:induction false} PositionSkip(rs: seq<int>, r: int, relative: bool, i: nat)
    requires i <= Position(rs, r, relative)
    ensures Position(rs, r, relative)
         == i + Position(rs[i..], if relative then r - Sum(rs[..i]) else r, relative)
  {
    if i == 0 {
      assert rs[0..] == rs && rs[..0] == [];
    } else {
      PositionSkip(rs[1..], if relative then r - rs[0] else r, relative, i - 1);
      assert rs[1..][i - 1..] == rs[i..];
      assert rs[..i][1..] == rs[1..][..i - 1];
    }
  }

  lemma {:induction false} AbsoluteAt(rs: seq<int>, t: int, i: nat)
    requires i < |rs|
    ensures Absolute(rs, t)[i] == t + Sum(rs[..i + 1])
  {
    if i == 0 {
      assert rs[..1] == [rs[0]] && [rs[0]][1..] == [];
    } else {
      AbsoluteAt(rs[1..], t + rs[0], i - 1);
      assert rs[..i + 1][1..] == rs[1..][..i];
    }
  }

  /** Relative and absolute insertion agree on the position and on every absolute value. */
  lemma {:induction false} AbsoluteInsert(rs: seq<int>, r: int, t: int)
    ensures Position(rs, r, true) == Position(Absolute(rs, t), t + r, false)
    ensures Absolute(InsertRank(rs, r, true), t)
         == InsertAt(Absolute(rs, t), Position(rs, r, true), t + r)
  {
    hide InsertRank, InsertAt, Absolute;
    if rs == [] {
      AbsoluteInsertEmpty(r, t);
    } else if rs[0] > r {
      AbsoluteInsertFront(rs, r, t);
    } else {
      AbsoluteInsert(rs[1..], r - rs[0], t + rs[0]);
      AbsoluteCons(rs[0], rs[1..], t);
      assert rs == [rs[0]] + rs[1..];
      var b := Absolute(rs[1..], t + rs[0]);
      assert Absolute(rs, t)[1..] == b;
      InsertRankTail(rs, r);
      AbsoluteCons(rs[0], InsertRank(rs[1..], r - rs[0], true), t);
      InsertAtCons(t + rs[0], b, Position(rs[1..], r - rs[0], true), t + r);
    }
  }

  lemma AbsoluteInsertEmpty(r: int, t: int)
    ensures Position([], r, true) == Position(Absolute([], t), t + r, false) == 0
    ensures Absolute(InsertRank([], r, true), t) == InsertAt(Absolute([], t), 0, t + r)
  {
    assert InsertRank([], r, true) == [r];
    assert Absolute([r], t) == [t + r] + Absolute([r][1..], t + r);
  }

  lemma AbsoluteInsertFront(rs: seq<int>, r: int, t: int)
    requires rs != [] && rs[0] > r
    ensures Position(rs, r, true) == Position(Absolute(rs, t), t + r, false) == 0
    ensures Absolute(InsertRank(rs, r, true), t) == InsertAt(Absolute(rs, t), 0, t + r)
  {
    InsertRankFront(rs, r);
    AbsoluteCons(r, [rs[0] - r] + rs[1..], t);
    AbsoluteCons(rs[0] - r, rs[1..], t + r);
    assert InsertAt(Absolute(rs, t), 0, t + r) == [t + r] + Absolute(rs, t);
  }

  lemma AbsoluteCons(x: int, s: seq<int>, t: int)
    ensures Absolute([x] + s, t) == [t + x] + Absolute(s, t + x)
  {
    assert ([x] + s)[1..] == s;
  }

  lemma InsertAtCons<T>(x: T, s: seq<T>, k: nat, y: T)
    requires k <= |s|
    ensures InsertAt([x] + s, k + 1, y) == [x] + InsertAt(s, k, y)
  {
    assert ([x] + s)[..k + 1] == [x] + s[..k];
    assert ([x] + s)[k + 1..] == s[k..];
  }

  lemma InsertRankFront(rs: seq<int>, r: int)
    requires rs != [] && rs[0] > r
    ensures InsertRank(rs, r, true) == [r] + ([rs[0] - r] + rs[1..])
  {
    assert rs[..0] == [];
    assert rs[0 := rs[0] - r] == [rs[0] - r] + rs[1..];
  }

  lemma InsertRankTail(rs: seq<int>, r: int)
    requires rs != [] && rs[0] <= r
    ensures InsertRank(rs, r, true) == [rs[0]] + InsertRank(rs[1..], r - rs[0], true)
  {
    var k := Position(rs, r, true);
    assert rs[..k][1..] == rs[1..][..k - 1];
    assert Remainder(rs, r, true) == Remainder(rs[1..], r - rs[0], true);
  }

  /** Removing from the relative list leaves every other absolute value as it was. */
  lemma {:induction false} AbsoluteRemove(rs: seq<int>, k: nat, t: int)
    requires k < |rs|
    ensures Absolute(RemoveRank(rs, k, true), t) == Without(Absolute(rs, t), k)
  {
    hide RemoveRank, Without, Absolute;
    assert rs == [rs[0]] + rs[1..];
    AbsoluteCons(rs[0], rs[1..], t);
    if k > 0 {
      AbsoluteRemove(rs[1..], k - 1, t + rs[0]);
      RemoveRankTail(rs, k);
      AbsoluteCons(rs[0], RemoveRank(rs[1..], k - 1, true), t);
      WithoutCons(t + rs[0], Absolute(rs[1..], t + rs[0]), k - 1);
    } else {
      AbsoluteRemoveHead(rs, t);
    }
  }

  lemma WithoutCons<T>(x: T, s: seq<T>, k: nat)
    requires k < |s|
    ensures Without([x] + s, k + 1) == [x] + Without(s, k)
    ensures Without([x] + s, 0) == s
  {
    assert ([x] + s)[..k + 1] == [x] + s[..k];
    assert ([x] + s)[k + 2..] == s[k + 1..];
  }

  lemma RemoveRankTail(rs: seq<int>, k: nat)
    requires 0 < k < |rs|
    ensures RemoveRank(rs, k, true) == [rs[0]] + RemoveRank(rs[1..], k - 1, true)
  {
  }

  lemma AbsoluteRemoveHead(rs: seq<int>, t: int)
    requires rs != []
    ensures Absolute(RemoveRank(rs, 0, true), t) == Without(Absolute(rs, t), 0)
  {
    var a := Absolute(rs, t);
    assert Without(a, 0) == a[1..] == Absolute(rs[1..], t + rs[0]);
    if |rs| > 1 {
      assert RemoveRank(rs, 0, true) == [rs[1] + rs[0]] + rs[2..];
      AbsoluteCons(rs[1] + rs[0], rs[2..], t);
      assert rs[1..] == [rs[1]] + rs[2..];
      AbsoluteCons(rs[1], rs[2..], t + rs[0]);
    } else {
      assert RemoveRank(rs, 0, true) == [];
    }
  }

  /** One tick: taking one off the head while the clock advances moves no deadline. */
  lemma AbsoluteTick(rs: seq<int>, t: int)
    requires rs != []
    ensures Absolute(rs[0 := rs[0] - 1], t + 1) == Absolute(rs, t)
  {
    assert rs[0 := rs[0] - 1][1..] == rs[1..];
  }
}
