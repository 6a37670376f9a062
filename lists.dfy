/** Concatenating a list of lists, group after group, and finding where each
    element of a group ends up. The element type is left abstract, so these
    facts hold for any kind of record. */
module Lists {

  /** Sum of the lengths of the groups. */
  function TotalLength<T>(groups: seq<seq<T>>): nat
  {
    if groups == [] then 0
    else TotalLength(groups[..|groups| - 1]) + |groups[|groups| - 1]|
  }

  /** The groups one after another. */
  function Concat<T>(groups: seq<seq<T>>): (r: seq<T>)
    ensures |r| == TotalLength(groups)
  {
    if groups == [] then []
    else Concat(groups[..|groups| - 1]) + groups[|groups| - 1]
  }

  /** Concatenation and total length work group by group. */
  lemma {:induction false} ConcatAppend<T>(a: seq<seq<T>>, b: seq<seq<T>>)
    ensures Concat(a + b) == Concat(a) + Concat(b)
    ensures TotalLength(a + b) == TotalLength(a) + TotalLength(b)
  {
    if b == [] {
      assert a + b == a;
    } else {
      var ab, init := a + b, b[..|b| - 1];
      assert ab[..|ab| - 1] == a + init;
      assert ab[|ab| - 1] == b[|b| - 1];
      ConcatAppend(a, init);
    }
  }

  /** The total length depends only on the lengths of the groups. */
  lemma {:induction false} TotalLengthByShape<T, U>(a: seq<seq<T>>, b: seq<seq<U>>)
    requires |a| == |b|
    requires forall k :: 0 <= k < |a| ==> |a[k]| == |b[k]|
    ensures TotalLength(a) == TotalLength(b)
  {
    if a != [] {
      TotalLengthByShape(a[..|a| - 1], b[..|b| - 1]);
    }
  }

  /** Element `j` of group `i` sits after all elements of the groups before
      it, at offset `j`. */
  lemma ConcatAt<T>(groups: seq<seq<T>>, i: nat, j: nat)
    requires i < |groups| && j < |groups[i]|
    ensures TotalLength(groups[..i]) + j < |Concat(groups)|
    ensures Concat(groups)[TotalLength(groups[..i]) + j] == groups[i][j]
  {
    var before, here, after := groups[..i], [groups[i]], groups[i + 1..];
    assert groups == before + here + after;
    ConcatAppend(before + here, after);
    ConcatAppend(before, here);
    assert here[..0] == [];
  }

  /** Every element of an earlier group comes before every element of a
      later one. */
  lemma {:induction false} GroupOrder<T>(groups: seq<seq<T>>, i: nat, i': nat, j: nat)
    requires i < i' <= |groups| && j < |groups[i]|
    ensures TotalLength(groups[..i]) + j < TotalLength(groups[..i'])
  {
    if i' == i + 1 {
      assert groups[..i'][..i] == groups[..i];
    } else {
      GroupOrder(groups, i, i' - 1, j);
      assert groups[..i'][..i' - 1] == groups[..i' - 1];
    }
  }

  /** The group and the offset within it of position `n` of the
      concatenation. */
  function Locate<T>(groups: seq<seq<T>>, n: nat): (p: (nat, nat))
    requires n < TotalLength(groups)
    ensures p.0 < |groups| && p.1 < |groups[p.0]|
    ensures n == TotalLength(groups[..p.0]) + p.1
  {
    var init := groups[..|groups| - 1];
    if n < TotalLength(init) then
      var p := Locate(init, n);
      assert init[..p.0] == groups[..p.0];
      p
    else
      (|groups| - 1, n - TotalLength(init))
  }
}
