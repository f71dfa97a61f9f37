/** A circular, doubly linked list with a sentinel head ("kernel style"), laid out
    over an arena: node n's links are next[n] and prev[n], and slot HEAD (0) is
    the sentinel. Elems is the abstract content: the linked nodes in forward order. */
module LinkList {

  const HEAD: int := 0

  /** True when no value occurs twice in s. */
  ghost predicate Distinct(s: seq<int>)
  {
    forall i, j :: 0 <= i < j < |s| ==> s[i] != s[j]
  }

  /** The elements of s that are in sel, in their original order. */
  function Selected(s: seq<int>, sel: set<int>): (r: seq<int>)
    ensures |r| <= |s|
  {
    if s == [] then []
    else Selected(s[..|s| - 1], sel) + (if s[|s| - 1] in sel then [s[|s| - 1]] else [])
  }

  /** The elements of s that are not in sel, in their original order. */
  function Unselected(s: seq<int>, sel: set<int>): (r: seq<int>)
    ensures |r| <= |s|
  {
    if s == [] then []
    else Unselected(s[..|s| - 1], sel) + (if s[|s| - 1] in sel then [] else [s[|s| - 1]])
  }

  lemma SplitSnoc(s: seq<int>, x: int, sel: set<int>)
    ensures Selected(s + [x], sel) == Selected(s, sel) + (if x in sel then [x] else [])
    ensures Unselected(s + [x], sel) == Unselected(s, sel) + (if x in sel then [] else [x])
  {
    assert (s + [x])[..|s|] == s;
  }

  /** Selected and Unselected split the members of s by membership in sel. */
  lemma {:induction false} SplitMembers(s: seq<int>, sel: set<int>)
    ensures forall x :: x in Selected(s, sel) <==> x in s && x in sel
    ensures forall x :: x in Unselected(s, sel) <==> x in s && x !in sel
  {
    if s != [] {
      var init := s[..|s| - 1];
      assert s == init + [s[|s| - 1]];
      SplitMembers(init, sel);
    }
  }

  /** Every element of Selected(s, sel) is in sel. */
  lemma {:induction false} SelectedIn(s: seq<int>, sel: set<int>)
    ensures forall k :: 0 <= k < |Selected(s, sel)| ==> Selected(s, sel)[k] in sel
  {
    if s != [] {
      var init := s[..|s| - 1];
      SelectedIn(init, sel);
      var r := Selected(s, sel);
      forall k | 0 <= k < |r| ensures r[k] in sel {
        if k < |Selected(init, sel)| { assert r[k] == Selected(init, sel)[k]; }
      }
    }
  }

  lemma {:induction false} SelectedDistinct(s: seq<int>, sel: set<int>)
    requires Distinct(s)
    ensures Distinct(Selected(s, sel))
  {
    if s != [] {
      var init := s[..|s| - 1];
      assert Distinct(init);
      SelectedDistinct(init, sel);
      SplitMembers(init, sel);
    }
  }

  /** The position of x in s (its first one). */
  function IndexOf(s: seq<int>, x: int): (k: nat)
    requires x in s
    ensures k < |s| && s[k] == x
    ensures forall j :: 0 <= j < k ==> s[j] != x
  {
    if s[0] == x then 0 else 1 + IndexOf(s[1..], x)
  }

  /** s with the (single) occurrence of x taken out, everything else in order. */
  function Remove(s: seq<int>, x: int): seq<int>
    requires x in s
  {
    s[..IndexOf(s, x)] + s[IndexOf(s, x) + 1..]
  }

  lemma IndexOfDistinct(s: seq<int>, k: nat)
    requires Distinct(s) && k < |s|
    ensures IndexOf(s, s[k]) == k
  {
  }

  lemma {:induction false} RemoveMembers(s: seq<int>, x: int)
    requires Distinct(s) && x in s
    ensures Distinct(Remove(s, x))
    ensures forall y :: y in Remove(s, x) <==> y in s && y != x
  {
    var k := IndexOf(s, x);
    var r := Remove(s, x);
    assert r == s[..k] + s[k + 1..];
    forall y ensures y in r <==> y in s && y != x {
      if y in r {
        var j :| 0 <= j < |r| && r[j] == y;
        if j < k { assert y == s[j]; } else { assert y == s[j + 1]; }
      }
      if y in s && y != x {
        var j :| 0 <= j < |s| && s[j] == y;
        if j < k { assert r[j] == y; } else { assert j != k; assert r[j - 1] == y; }
      }
    }
    forall i, j | 0 <= i < j < |r| ensures r[i] != r[j] {
      var i' := if i < k then i else i + 1;
      var j' := if j < k then j else j + 1;
      assert r[i] == s[i'] && r[j] == s[j'];
    }
  }

  /** The position after i on a cycle of length n. */
  function Succ(i: nat, n: nat): nat
  {
    if i + 1 < n then i + 1 else 0
  }

  /** The position before i on a cycle of length n. */
  function Pred(i: nat, n: nat): nat
  {
    if i == 0 then if n == 0 then 0 else n - 1 else i - 1
  }

  /** Read as next and prev links, nx and pv trace the cycle r in both directions. */
  ghost predicate Linked(nx: seq<int>, pv: seq<int>, r: seq<int>)
  {
    && (forall i :: 0 <= i < |r| ==> 0 <= r[i] < |nx| && r[i] < |pv|)
    && (forall i {:trigger nx[r[i]]} :: 0 <= i < |r| ==> nx[r[i]] == r[Succ(i, |r|)])
    && (forall i {:trigger pv[r[i]]} :: 0 <= i < |r| ==> pv[r[i]] == r[Pred(i, |r|)])
  }

  /** Every node on the cycle has both of its links pointing back onto the cycle. */
  lemma LinkedInRange(nx: seq<int>, pv: seq<int>, r: seq<int>)
    requires Linked(nx, pv, r)
    ensures forall x :: x in r ==> 0 <= x < |nx| && 0 <= nx[x] < |nx| && 0 <= x < |pv| && 0 <= pv[x] < |nx|
  {
    forall x | x in r
      ensures 0 <= x < |nx| && 0 <= nx[x] < |nx| && 0 <= x < |pv| && 0 <= pv[x] < |nx|
    {
      var i :| 0 <= i < |r| && r[i] == x;
      assert nx[r[i]] == r[Succ(i, |r|)];
      assert pv[r[i]] == r[Pred(i, |r|)];
    }
  }

  /** On a cycle that the links trace both ways, next and prev undo each other. */
  lemma LinkedInverse(nx: seq<int>, pv: seq<int>, r: seq<int>)
    requires Linked(nx, pv, r)
    ensures forall n :: n in r ==>
      0 <= n < |nx| && 0 <= nx[n] < |nx| && n < |pv| && 0 <= pv[n] < |nx| &&
      nx[pv[n]] == n && pv[nx[n]] == n
  {
    LinkedInRange(nx, pv, r);
    forall n | n in r
      ensures nx[pv[n]] == n && pv[nx[n]] == n
    {
      var i :| 0 <= i < |r| && r[i] == n;
      assert nx[r[i]] == r[Succ(i, |r|)] && pv[r[i]] == r[Pred(i, |r|)];
      var j, k := Succ(i, |r|), Pred(i, |r|);
      assert Pred(j, |r|) == i && Succ(k, |r|) == i;
      assert pv[r[j]] == r[Pred(j, |r|)] && nx[r[k]] == r[Succ(k, |r|)];
    }
  }

  /** The four writes of list_add keep the links consistent, with n now first. */
  lemma LinkFront(nx: seq<int>, pv: seq<int>, e: seq<int>, n: int)
    requires Linked(nx, pv, [HEAD] + e) && Distinct([HEAD] + e)
    requires 0 < n < |nx| == |pv| && n !in e && 0 <= nx[HEAD] < |pv|
    ensures Linked(nx[n := nx[HEAD]][HEAD := n], pv[nx[HEAD] := n][n := HEAD], [HEAD, n] + e)
  {
    var r0, r := [HEAD] + e, [HEAD, n] + e;
    var m0 := |r0|;
    assert r0[0] == HEAD;
    var f := nx[HEAD];
    assert nx[r0[0]] == r0[Succ(0, m0)];
    assert pv[r0[0]] == r0[Pred(0, m0)];
    var nx', pv' := nx[n := f][HEAD := n], pv[f := n][n := HEAD];
    forall i | 0 <= i < |r| ensures 0 <= r[i] < |nx'| && r[i] < |pv'| {
      if i >= 2 { assert r[i] == r0[i - 1]; }
    }
    forall i | 0 <= i < |r| ensures nx'[r[i]] == r[Succ(i, |r|)] {
      if i >= 2 {
        assert r[i] == r0[i - 1];
        assert nx[r0[i - 1]] == r0[Succ(i - 1, m0)];
      }
    }
    forall i | 0 <= i < |r| ensures pv'[r[i]] == r[Pred(i, |r|)] {
      if i >= 2 {
        assert r[i] == r0[i - 1];
        assert pv[r0[i - 1]] == r0[Pred(i - 1, m0)];
        if i > 2 { assert r[i] != r0[1]; }
      }
    }
  }

  /** The four writes of list_add_tail keep the links consistent, with n now last. */
  lemma LinkBack(nx: seq<int>, pv: seq<int>, e: seq<int>, n: int)
    requires Linked(nx, pv, [HEAD] + e) && Distinct([HEAD] + e)
    requires 0 < n < |nx| == |pv| && n !in e && 0 <= pv[HEAD] < |nx|
    ensures Linked(nx[pv[HEAD] := n][n := HEAD], pv[n := pv[HEAD]][HEAD := n], [HEAD] + e + [n])
  {
    var r0, r := [HEAD] + e, [HEAD] + e + [n];
    var m := |r0|;
    assert r0[0] == HEAD;
    var l := pv[HEAD];
    assert pv[r0[0]] == r0[Pred(0, m)];
    assert nx[r0[m - 1]] == r0[Succ(m - 1, m)];
    var nx', pv' := nx[l := n][n := HEAD], pv[n := l][HEAD := n];
    forall i | 0 <= i < |r| ensures 0 <= r[i] < |nx'| && r[i] < |pv'| {
      if i < m { assert r[i] == r0[i]; }
    }
    forall i | 0 <= i < |r| ensures nx'[r[i]] == r[Succ(i, |r|)] {
      if i < m - 1 {
        assert r[i] == r0[i] && r[i + 1] == r0[i + 1];
        assert nx[r0[i]] == r0[Succ(i, m)];
        assert r0[i] != r0[m - 1];
      } else if i == m - 1 {
        assert r[i] == r0[m - 1];
      }
    }
    forall i | 0 <= i < |r| ensures pv'[r[i]] == r[Pred(i, |r|)] {
      if 0 < i < m {
        assert r[i] == r0[i] && r[i - 1] == r0[i - 1];
        assert pv[r0[i]] == r0[Pred(i, m)];
      }
    }
  }

  /** The two writes of list_del, applied to the node at position k of the cycle,
      leave the links consistent for the cycle without it. */
  lemma Unlink(nx: seq<int>, pv: seq<int>, r0: seq<int>, k: nat)
    requires Linked(nx, pv, r0) && Distinct(r0)
    requires 0 < k < |r0| && 0 <= pv[r0[k]] < |nx| && 0 <= nx[r0[k]] < |pv|
    ensures Linked(nx[pv[r0[k]] := nx[r0[k]]], pv[nx[r0[k]] := pv[r0[k]]], r0[..k] + r0[k + 1..])
  {
    var m := |r0|;
    var e := r0[k];
    assert pv[r0[k]] == r0[Pred(k, m)];
    assert nx[r0[k]] == r0[Succ(k, m)];
    var r := r0[..k] + r0[k + 1..];
    forall i | 0 <= i < |r| ensures 0 <= r[i] < |nx| && r[i] < |pv| {
      if i >= k { assert r[i] == r0[i + 1]; }
    }
    UnlinkNext(nx, pv[r0[k]], r0, k);
    UnlinkPrev(pv, nx[r0[k]], r0, k);
  }

  lemma UnlinkNext(nx: seq<int>, p: int, r0: seq<int>, k: nat)
    requires Distinct(r0) && 0 < k < |r0| && p == r0[k - 1]
    requires forall i :: 0 <= i < |r0| ==> 0 <= r0[i] < |nx|
    requires forall i {:trigger nx[r0[i]]} :: 0 <= i < |r0| ==> nx[r0[i]] == r0[Succ(i, |r0|)]
    ensures var r, nx' := r0[..k] + r0[k + 1..], nx[p := nx[r0[k]]];
      forall i :: 0 <= i < |r| ==> nx'[r[i]] == r[Succ(i, |r|)]
  {
    var m := |r0|;
    var q := nx[r0[k]];
    assert q == r0[Succ(k, m)];
    var r, nx' := r0[..k] + r0[k + 1..], nx[p := q];
    forall i | 0 <= i < |r| ensures nx'[r[i]] == r[Succ(i, |r|)] {
      if i < k - 1 {
        assert r[i] == r0[i] && r[i + 1] == r0[i + 1];
        assert nx[r0[i]] == r0[Succ(i, m)];
      } else if i == k - 1 {
        assert r[i] == p;
      } else {
        assert r[i] == r0[i + 1];
        assert nx[r0[i + 1]] == r0[Succ(i + 1, m)];
        assert r0[i + 1] != r0[k - 1];
      }
    }
  }

  lemma UnlinkPrev(pv: seq<int>, q: int, r0: seq<int>, k: nat)
    requires Distinct(r0) && 0 < k < |r0| && q == r0[Succ(k, |r0|)]
    requires forall i :: 0 <= i < |r0| ==> 0 <= r0[i] < |pv|
    requires forall i {:trigger pv[r0[i]]} :: 0 <= i < |r0| ==> pv[r0[i]] == r0[Pred(i, |r0|)]
    ensures var r, pv' := r0[..k] + r0[k + 1..], pv[q := pv[r0[k]]];
      forall i :: 0 <= i < |r| ==> pv'[r[i]] == r[Pred(i, |r|)]
  {
    var m := |r0|;
    var p := pv[r0[k]];
    assert p == r0[Pred(k, m)];
    var r, pv' := r0[..k] + r0[k + 1..], pv[q := p];
    forall i | 0 <= i < |r| ensures pv'[r[i]] == r[Pred(i, |r|)] {
      if i == 0 {
        assert pv[r0[0]] == r0[Pred(0, m)];
        if k < m - 1 { assert r0[0] != q; }
      } else if i < k {
        assert r[i] == r0[i] && r[i - 1] == r0[i - 1];
        assert pv[r0[i]] == r0[Pred(i, m)];
        assert r0[i] != q;
      } else if i == k {
        assert r[i] == r0[k + 1] == q;
      } else {
        assert r[i] == r0[i + 1] && r[i - 1] == r0[i];
        assert pv[r0[i + 1]] == r0[Pred(i + 1, m)];
        assert r0[i + 1] != r0[k + 1];
      }
    }
  }

  lemma DistinctFront(e: seq<int>, n: int)
    requires Distinct([HEAD] + e) && n != HEAD && n !in e
    ensures Distinct([HEAD, n] + e)
  {
    var r0, r := [HEAD] + e, [HEAD, n] + e;
    assert r[0] == r0[0] == HEAD;
    forall i, j | 0 <= i < j < |r| ensures r[i] != r[j] {
      if j >= 2 { assert r[j] == r0[j - 1]; }
      if i >= 2 { assert r[i] == r0[i - 1]; }
      if i == 1 { assert r[j] in e; }
    }
  }

  lemma DistinctBack(e: seq<int>, n: int)
    requires Distinct([HEAD] + e) && n != HEAD && n !in e
    ensures Distinct([HEAD] + e + [n])
  {
    var r0, r := [HEAD] + e, [HEAD] + e + [n];
    forall i, j | 0 <= i < j < |r| ensures r[i] != r[j] {
      if j < |r0| { assert r[i] == r0[i] && r[j] == r0[j]; }
      else if i > 0 { assert r[i] in e; }
    }
  }

  /** The list invariant over the two link tables nx, pv and the content e:
      the sentinel and the elements form one cycle that nx follows forwards and
      pv backwards, and the sentinel is not among the elements (so, by
      RingDistinct, no node is on the cycle twice). */
  ghost predicate ListOk(nx: seq<int>, pv: seq<int>, e: seq<int>)
  {
    && |nx| == |pv| > 0
    && 0 <= nx[HEAD] < |nx| && 0 <= pv[HEAD] < |nx|
    && HEAD !in e
    && (forall x :: x in e ==> 0 < x < |nx| && 0 <= nx[x] < |nx| && 0 <= pv[x] < |nx|)
    && Linked(nx, pv, [HEAD] + e)
  }

  /** Following next from the sentinel returns to it only after the last
      element, so a node that occurred twice on the cycle would have to be
      followed by the sentinel before the end. */
  lemma {:induction false} NoRepeatAt(nx: seq<int>, pv: seq<int>, e: seq<int>, i: nat, d: nat)
    requires Linked(nx, pv, [HEAD] + e) && HEAD !in e
    requires 0 < d && i + d <= |e|
    ensures ([HEAD] + e)[i] != ([HEAD] + e)[i + d]
    decreases |e| - i
  {
    var r := [HEAD] + e;
    var m := |r|;
    if r[i] == r[i + d] {
      assert nx[r[i]] == r[Succ(i, m)];
      assert nx[r[i + d]] == r[Succ(i + d, m)];
      if i + d + 1 < m {
        NoRepeatAt(nx, pv, e, i + 1, d);
      } else {
        assert false;
      }
    }
  }

  lemma RingDistinct(nx: seq<int>, pv: seq<int>, e: seq<int>)
    requires Linked(nx, pv, [HEAD] + e) && HEAD !in e
    ensures Distinct([HEAD] + e)
  {
    forall i, j | 0 <= i < j < |e| + 1 ensures ([HEAD] + e)[i] != ([HEAD] + e)[j] {
      NoRepeatAt(nx, pv, e, i, j - i);
    }
  }

  lemma InRangeOk(nx: seq<int>, pv: seq<int>, e: seq<int>)
    requires |nx| == |pv| > 0 && Distinct([HEAD] + e) && Linked(nx, pv, [HEAD] + e)
    ensures ListOk(nx, pv, e)
  {
    HeadNotIn(e);
    var r := [HEAD] + e;
    LinkedInRange(nx, pv, r);
    assert HEAD in r;
    forall x | x in e ensures 0 < x < |nx| {
      assert x in r;
      var i :| 0 <= i < |e| && e[i] == x;
      assert r[i + 1] == x && r[0] == HEAD;
    }
  }

  lemma FrontOk(nx: seq<int>, pv: seq<int>, e: seq<int>, n: int)
    requires ListOk(nx, pv, e) && 0 < n < |nx| && n !in e
    ensures ListOk(nx[n := nx[HEAD]][HEAD := n], pv[nx[HEAD] := n][n := HEAD], [n] + e)
  {
    RingDistinct(nx, pv, e);
    LinkFront(nx, pv, e, n);
    DistinctFront(e, n);
    assert [HEAD] + ([n] + e) == [HEAD, n] + e;
    InRangeOk(nx[n := nx[HEAD]][HEAD := n], pv[nx[HEAD] := n][n := HEAD], [n] + e);
  }

  lemma BackOk(nx: seq<int>, pv: seq<int>, e: seq<int>, n: int)
    requires ListOk(nx, pv, e) && 0 < n < |nx| && n !in e
    ensures ListOk(nx[pv[HEAD] := n][n := HEAD], pv[n := pv[HEAD]][HEAD := n], e + [n])
  {
    RingDistinct(nx, pv, e);
    LinkBack(nx, pv, e, n);
    DistinctBack(e, n);
    assert [HEAD] + (e + [n]) == [HEAD] + e + [n];
    InRangeOk(nx[pv[HEAD] := n][n := HEAD], pv[n := pv[HEAD]][HEAD := n], e + [n]);
  }

  lemma DelOk(nx: seq<int>, pv: seq<int>, e: seq<int>, x: int)
    requires ListOk(nx, pv, e) && x in e
    requires 0 <= nx[x] < |pv| && 0 <= pv[x] < |nx|
    ensures ListOk(nx[pv[x] := nx[x]], pv[nx[x] := pv[x]], Remove(e, x))
  {
    RingDistinct(nx, pv, e);
    var r0 := [HEAD] + e;
    var k := RemoveFromRing(e, x);
    Unlink(nx, pv, r0, k + 1);
    InRangeOk(nx[pv[x] := nx[x]], pv[nx[x] := pv[x]], Remove(e, x));
  }

  /** Taking x out of the cycle is taking it out of the content. */
  lemma RemoveFromRing(e: seq<int>, x: int) returns (k: nat)
    requires Distinct([HEAD] + e) && x in e
    ensures k < |e| && e[k] == x && ([HEAD] + e)[k + 1] == x
    ensures ([HEAD] + e)[..k + 1] + ([HEAD] + e)[k + 2..] == [HEAD] + Remove(e, x)
    ensures Distinct([HEAD] + Remove(e, x))
  {
    var r0 := [HEAD] + e;
    k := IndexOf(e, x);
    assert r0[k + 1] == x;
    RemoveMembers(r0, x);
    IndexOfDistinct(r0, k + 1);
    assert r0[..k + 1] == [HEAD] + e[..k];
    assert r0[k + 2..] == e[k + 1..];
  }

  lemma ElemsDistinct(e: seq<int>)
    requires Distinct([HEAD] + e)
    ensures Distinct(e)
  {
    var r := [HEAD] + e;
    forall i, j | 0 <= i < j < |e| ensures e[i] != e[j] {
      assert e[i] == r[i + 1] && e[j] == r[j + 1];
    }
  }

  lemma HeadNotIn(e: seq<int>)
    requires Distinct([HEAD] + e)
    ensures HEAD !in e
  {
    forall k | 0 <= k < |e| ensures e[k] != HEAD {
      assert ([HEAD] + e)[0] == HEAD && ([HEAD] + e)[k + 1] == e[k];
    }
  }

  /** Moving the first node of rest to the end of done keeps done + rest. */
  lemma Shift(done: seq<int>, rest: seq<int>)
    requires rest != []
    ensures (done + [rest[0]]) + rest[1..] == done + rest
  {
    assert rest == [rest[0]] + rest[1..];
  }

  class ListArena {
    const next: array<int>
    const prev: array<int>
    ghost var Elems: seq<int>

    /** The sentinel followed by the linked nodes: the cycle that next follows. */
    ghost function Ring(): seq<int>
      reads this
    {
      [HEAD] + Elems
    }

    ghost predicate Valid()
      reads this, next, prev
    {
      next != prev && ListOk(next[..], prev[..], Elems)
    }

    /** The pointer invariant of a kernel list: every linked node, the sentinel
        included, is the successor of its predecessor and the predecessor of its
        successor. */
    ghost predicate WellFormed()
      reads this, next, prev
    {
      && next.Length == prev.Length
      && forall n :: n in Ring() ==>
           0 <= n < next.Length && 0 <= next[n] < next.Length && 0 <= prev[n] < next.Length &&
           next[prev[n]] == n && prev[next[n]] == n
    }

    lemma ValidIsWellFormed()
      requires Valid()
      ensures WellFormed()
    {
      LinkedInverse(next[..], prev[..], Ring());
    }

    /** No node is linked twice, and every linked node is a real slot. */
    lemma ElemsInSlots()
      requires Valid()
      ensures Distinct(Elems) && HEAD !in Elems
      ensures forall x :: x in Elems ==> 0 < x < next.Length
    {
      RingDistinct(next[..], prev[..], Elems);
      ElemsDistinct(Elems);
    }

    /** The successor of the k-th element: the next element, or the sentinel after the last. */
    lemma NextAt(k: nat)
      requires Valid() && k < |Elems|
      ensures 0 < Elems[k] < next.Length
      ensures next[Elems[k]] == if k + 1 < |Elems| then Elems[k + 1] else HEAD
    {
      assert Elems[k] in Elems;
      var r := Ring();
      assert r[k + 1] == Elems[k];
      assert next[..][r[k + 1]] == r[Succ(k + 1, |r|)];
    }

    lemma FirstAt()
      requires Valid()
      ensures next[HEAD] == if |Elems| > 0 then Elems[0] else HEAD
      ensures prev[HEAD] == if |Elems| > 0 then Elems[|Elems| - 1] else HEAD
    {
      var r := Ring();
      assert r[0] == HEAD;
      assert next[..][r[0]] == r[Succ(0, |r|)] && prev[..][r[0]] == r[Pred(0, |r|)];
    }

    /** LIST_HEAD: a fresh list whose head points to itself both ways. */
    constructor (capacity: nat)
      requires capacity > 0
      ensures Valid() && Elems == []
      ensures next.Length == capacity && fresh(next) && fresh(prev)
      ensures next[HEAD] == HEAD && prev[HEAD] == HEAD
    {
      next := new int[capacity];
      prev := new int[capacity];
      Elems := [];
      new;
      next[HEAD] := HEAD;
      prev[HEAD] := HEAD;
      assert Ring() == [HEAD];
      InRangeOk(next[..], prev[..], []);
    }

    /** list_init: (re)initialise the head so that both links point to itself;
        the links of the other nodes are not touched. */
    method Init()
      requires next != prev && next.Length == prev.Length > 0
      modifies this, next, prev
      ensures Valid() && Elems == []
      ensures next[HEAD] == HEAD && prev[HEAD] == HEAD
      ensures forall k :: 0 < k < next.Length ==> next[k] == old(next[k]) && prev[k] == old(prev[k])
    {
      prev[HEAD] := HEAD;
      next[HEAD] := HEAD;
      Elems := [];
      assert Ring() == [HEAD];
      InRangeOk(next[..], prev[..], []);
    }

    /** list_add: insert node n at the front, right after the head. */
    method Add(n: int)
      requires Valid() && 0 < n < next.Length && n !in Elems
      modifies this, next, prev
      ensures Valid() && Elems == [n] + old(Elems)
      ensures 0 <= old(next[HEAD]) < next.Length
      ensures next[HEAD] == n && prev[n] == HEAD
      ensures next[n] == old(next[HEAD]) && prev[old(next[HEAD])] == n
      ensures forall k :: 0 <= k < next.Length && k != n && k != HEAD ==> next[k] == old(next[k])
      ensures forall k :: 0 <= k < prev.Length && k != n && k != old(next[HEAD]) ==> prev[k] == old(prev[k])
    {
      ghost var nx0, pv0 := next[..], prev[..];
      FirstAt();
      var first := next[HEAD];
      prev[first] := n;
      next[n] := first;
      prev[n] := HEAD;
      next[HEAD] := n;
      assert next[..] == nx0[n := first][HEAD := n];
      assert prev[..] == pv0[first := n][n := HEAD];
      FrontOk(nx0, pv0, Elems, n);
      Elems := [n] + Elems;
    }

    /** list_add_tail: insert node n at the back, right before the head. */
    method AddTail(n: int)
      requires Valid() && 0 < n < next.Length && n !in Elems
      modifies this, next, prev
      ensures Valid() && Elems == old(Elems) + [n]
      ensures 0 <= old(prev[HEAD]) < next.Length
      ensures prev[HEAD] == n && next[n] == HEAD
      ensures prev[n] == old(prev[HEAD]) && next[old(prev[HEAD])] == n
      ensures forall k :: 0 <= k < next.Length && k != n && k != old(prev[HEAD]) ==> next[k] == old(next[k])
      ensures forall k :: 0 <= k < prev.Length && k != n && k != HEAD ==> prev[k] == old(prev[k])
    {
      ghost var nx0, pv0 := next[..], prev[..];
      FirstAt();
      var last := prev[HEAD];
      next[last] := n;
      prev[n] := last;
      next[n] := HEAD;
      prev[HEAD] := n;
      assert next[..] == nx0[last := n][n := HEAD];
      assert prev[..] == pv0[n := last][HEAD := n];
      BackOk(nx0, pv0, Elems, n);
      Elems := Elems + [n];
    }

    /** list_del: unlink e by joining its neighbours. e's own links are left as they were. */
    method Del(e: int)
      requires Valid() && e in Elems
      modifies this, next, prev
      ensures Valid() && Elems == Remove(old(Elems), e)
      ensures forall x :: x in Elems <==> x in old(Elems) && x != e
      ensures old(0 <= prev[e] < next.Length && 0 <= next[e] < next.Length)
      ensures next[old(prev[e])] == old(next[e]) && prev[old(next[e])] == old(prev[e])
      ensures next[e] == old(next[e]) && prev[e] == old(prev[e])
      ensures forall k :: 0 <= k < next.Length && k != old(prev[e]) ==> next[k] == old(next[k])
      ensures forall k :: 0 <= k < prev.Length && k != old(next[e]) ==> prev[k] == old(prev[k])
    {
      ghost var nx0, pv0 := next[..], prev[..];
      RingDistinct(next[..], prev[..], Elems);
      ElemsDistinct(Elems);
      RemoveMembers(Elems, e);
      assert e != HEAD && e != nx0[e] && e != pv0[e] by {
        var r := Ring();
        var k := IndexOf(Elems, e);
        assert r[k + 1] == e && r[0] == HEAD;
        assert nx0[r[k + 1]] == r[Succ(k + 1, |r|)] && pv0[r[k + 1]] == r[Pred(k + 1, |r|)];
      }
      var p := prev[e];
      var q := next[e];
      next[p] := q;
      prev[q] := p;
      assert next[..] == nx0[p := q];
      assert prev[..] == pv0[q := p];
      DelOk(nx0, pv0, Elems, e);
      Elems := Remove(Elems, e);
    }

    /** list_empty: 1 exactly when the head points back to itself, that is,
        when no node is linked. */
    method IsEmpty() returns (r: int)
      requires Valid()
      ensures r == 0 || r == 1
      ensures r == 1 <==> next[HEAD] == HEAD
      ensures r == 1 <==> Elems == []
    {
      FirstAt();
      r := if next[HEAD] == HEAD then 1 else 0;
    }

    /** list_for_each: start at head.next, follow next until the head comes back;
        the nodes visited are the list's elements in forward order. */
    method ForEach() returns (visited: seq<int>)
      requires Valid()
      ensures visited == Elems
    {
      FirstAt();
      var pos := next[HEAD];
      visited := [];
      ghost var i := 0;
      while pos != HEAD
        invariant 0 <= i <= |Elems|
        invariant visited == Elems[..i]
        invariant pos == if i < |Elems| then Elems[i] else HEAD
        decreases |Elems| - i
      {
        NextAt(i);
        visited := visited + [pos];
        pos := next[pos];
        i := i + 1;
      }
      assert Elems[..i] == Elems;
    }

    /** The successor of the first node of rest, when the list is kept + rest. */
    lemma NextOfRest(kept: seq<int>, rest: seq<int>)
      requires Valid() && Elems == kept + rest && rest != []
      ensures 0 < rest[0] < next.Length
      ensures next[rest[0]] == if |rest| > 1 then rest[1] else HEAD
    {
      var k := |kept|;
      assert Elems[k] == rest[0];
      NextAt(k);
      if |rest| > 1 { assert Elems[k + 1] == rest[1]; }
    }

    /** The body of the safe iteration: with the list kept + rest and pos the
        first node of rest, pos is unlinked if it is doomed and moved over to
        kept otherwise. */
    method DelIfDoomed(pos: int, doomed: set<int>, ghost kept: seq<int>, ghost rest: seq<int>)
      requires Valid() && Elems == kept + rest && rest != [] && rest[0] == pos
      modifies this, next, prev
      ensures Valid()
      ensures Elems == (if pos in doomed then kept else kept + [pos]) + rest[1..]
    {
      assert rest == [pos] + rest[1..];
      if pos in doomed {
        RingDistinct(next[..], prev[..], Elems);
        ElemsDistinct(Elems);
        assert Elems[|kept|] == pos;
        IndexOfDistinct(Elems, |kept|);
        assert Remove(Elems, pos) == kept + rest[1..];
        Del(pos);
      } else {
        assert Elems == (kept + [pos]) + rest[1..];
      }
    }

    /** list_for_each_safe with a body that does list_del(pos) on the nodes in
        doomed. The successor is saved before the body runs, so every node present
        at the start is visited, in order; the doomed ones are unlinked and
        returned, the others keep their order. */
    method ForEachSafe(doomed: set<int>) returns (visited: seq<int>, removed: seq<int>)
      requires Valid()
      modifies this, next, prev
      ensures Valid()
      ensures visited == old(Elems)
      ensures removed == Selected(old(Elems), doomed)
      ensures Elems == Unselected(old(Elems), doomed)
    {
      ghost var e0 := Elems;
      ghost var kept: seq<int> := [];
      ghost var rest := Elems;
      FirstAt();
      var pos := next[HEAD];
      if rest != [] { NextOfRest(kept, rest); }
      var p := next[pos];
      visited, removed := [], [];
      while pos != HEAD
        invariant Valid() && Elems == kept + rest
        invariant e0 == visited + rest
        invariant kept == Unselected(visited, doomed) && removed == Selected(visited, doomed)
        invariant rest == [] ==> pos == HEAD
        invariant rest != [] ==> pos == rest[0] && pos != HEAD
        invariant rest != [] ==> p == if |rest| > 1 then rest[1] else HEAD
        decreases |rest|
      {
        SplitSnoc(visited, pos, doomed);
        Shift(visited, rest);
        DelIfDoomed(pos, doomed, kept, rest);
        visited := visited + [pos];
        if pos in doomed {
          removed := removed + [pos];
        } else {
          kept := kept + [pos];
        }
        rest := rest[1..];
        pos := p;
        if rest != [] { NextOfRest(kept, rest); }
        p := next[pos];
      }
      assert visited + [] == visited;
      assert kept + [] == kept;
    }
  }
}
