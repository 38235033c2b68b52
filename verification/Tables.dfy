/** The SORT and SEARCH macros of lib64/include: bubble sort and a two-ended binary search. */
module Tables {

  import opened Options

  /** `cmp` is defined and a total preorder on the given elements. */
  ghost predicate Orders<T(!new)>(cmp: (T, T) --> int, elems: set<T>) {
    && (forall x, y :: x in elems && y in elems ==> cmp.requires(x, y))
    && (forall x, y :: x in elems && y in elems && cmp(x, y) > 0 ==> cmp(y, x) <= 0)
    && (forall x, y, z :: x in elems && y in elems && z in elems && cmp(x, y) <= 0 && cmp(y, z) <= 0 ==> cmp(x, z) <= 0)
  }

  ghost predicate Within<T(!new)>(s: seq<T>, elems: set<T>) {
    forall i :: 0 <= i < |s| ==> s[i] in elems
  }

  ghost predicate Ascending<T(!new)>(s: seq<T>, cmp: (T, T) --> int, elems: set<T>)
    requires Orders(cmp, elems) && Within(s, elems)
  {
    forall i, j :: 0 <= i < j < |s| ==> cmp(s[i], s[j]) <= 0
  }

  lemma SameElements<T>(s: seq<T>, t: seq<T>, x: T)
    requires multiset(s) == multiset(t) && x in s
    ensures x in t
  {
    assert x in multiset(s);
  }

  /** Any two entries at different positions are related. */
  ghost predicate Pairwise<T(!new)>(s: seq<T>, rel: (T, T) -> bool) {
    forall i, j :: 0 <= i < |s| && 0 <= j < |s| && i != j ==> rel(s[i], s[j])
  }

  /** Rearranging entries keeps an irreflexive pairwise relation. */
  lemma RearrangementKeepsPairwise<T(!new)>(s: seq<T>, t: seq<T>, rel: (T, T) -> bool)
    requires multiset(s) == multiset(t) && Pairwise(s, rel)
    requires forall x :: x in s ==> !rel(x, x)
    ensures Pairwise(t, rel)
  {
    forall i, j | 0 <= i < |t| && 0 <= j < |t| && i != j ensures rel(t[i], t[j]) {
      SameElements(t, s, t[i]);
      SameElements(t, s, t[j]);
      if t[i] == t[j] {
        Twice(t, if i < j then i else j, if i < j then j else i);
        var a, b := TwoPositions(s, t[i]);
      } else {
        var a :| 0 <= a < |s| && s[a] == t[i];
        var b :| 0 <= b < |s| && s[b] == t[j];
        assert a != b;
      }
    }
  }

  lemma Twice<T>(t: seq<T>, i: nat, j: nat)
    requires i < j < |t| && t[i] == t[j]
    ensures multiset(t)[t[i]] >= 2
  {
    assert t == t[..i] + [t[i]] + t[i + 1..j] + [t[j]] + t[j + 1..];
  }

  lemma TwoPositions<T>(s: seq<T>, x: T) returns (a: nat, b: nat)
    requires multiset(s)[x] >= 2
    ensures a < b < |s| && s[a] == x && s[b] == x
  {
    assert x in s;
    var k :| 0 <= k < |s| && s[k] == x;
    var head, tail := s[..k], s[k + 1..];
    assert s == head + [x] + tail;
    if x in head {
      var i :| 0 <= i < |head| && head[i] == x;
      a, b := i, k;
    } else {
      assert x in multiset(tail);
      var i :| 0 <= i < |tail| && tail[i] == x;
      a, b := k, k + 1 + i;
    }
  }

  lemma SwapKeepsMultiset<T>(s: seq<T>, i: nat)
    requires i + 1 < |s|
    ensures multiset(s[i := s[i + 1]][i + 1 := s[i]]) == multiset(s)
  {
    assert s == s[..i] + [s[i], s[i + 1]] + s[i + 2..];
    assert s[i := s[i + 1]][i + 1 := s[i]] == s[..i] + [s[i + 1], s[i]] + s[i + 2..];
  }

  /** One comparison of the bubble sort. */
  ghost function Exchanged<T(!new)>(s: seq<T>, i: nat, cmp: (T, T) --> int, elems: set<T>): seq<T>
    requires i + 1 < |s| && Orders(cmp, elems) && Within(s, elems)
  {
    if cmp(s[i], s[i + 1]) > 0 then s[i := s[i + 1]][i + 1 := s[i]] else s
  }

  /** Element i is no smaller than those before it. */
  ghost predicate GreatestAt<T(!new)>(s: seq<T>, i: nat, cmp: (T, T) --> int, elems: set<T>)
    requires i < |s| && Orders(cmp, elems) && Within(s, elems)
  {
    forall x :: x in s[..i] ==> cmp(x, s[i]) <= 0
  }

  lemma ExchangeMovesGreatest<T(!new)>(s: seq<T>, i: nat, cmp: (T, T) --> int, elems: set<T>)
    requires i + 1 < |s| && Orders(cmp, elems) && Within(s, elems) && GreatestAt(s, i, cmp, elems)
    ensures var t := Exchanged(s, i, cmp, elems);
            multiset(t) == multiset(s) && Within(t, elems) && GreatestAt(t, i + 1, cmp, elems)
  {
    var t := Exchanged(s, i, cmp, elems);
    SwapKeepsMultiset(s, i);
    assert t[..i] == s[..i];
    var head, top := t[..i + 1], t[i + 1];
    forall x | x in head ensures cmp(x, top) <= 0 {
      var k :| 0 <= k < i + 1 && head[k] == x;
      assert k < i ==> x == s[..i][k];
    }
  }

  /** The inner loop: the greatest of the first out + 1 elements ends up at index out. */
  method BubblePass<T(!new)>(a: array<T>, out: nat, cmp: (T, T) --> int, ghost elems: set<T>)
    requires out < a.Length && Orders(cmp, elems) && Within(a[..out + 1], elems)
    modifies a
    ensures multiset(a[..out + 1]) == multiset(old(a[..out + 1])) && a[out + 1..] == old(a[out + 1..])
    ensures Within(a[..out + 1], elems) && GreatestAt(a[..out + 1], out, cmp, elems)
  {
    var i := 0;
    while i < out
      invariant i <= out
      invariant multiset(a[..out + 1]) == multiset(old(a[..out + 1])) && a[out + 1..] == old(a[out + 1..])
      invariant Within(a[..out + 1], elems) && GreatestAt(a[..out + 1], i, cmp, elems)
    {
      ghost var s := a[..out + 1];
      assert s[i] in elems && s[i + 1] in elems;
      ExchangeMovesGreatest(s, i, cmp, elems);
      if cmp(a[i], a[i + 1]) > 0 {
        a[i], a[i + 1] := a[i + 1], a[i];
      }
      assert a[..out + 1] == Exchanged(s, i, cmp, elems);
      i := i + 1;
    }
  }

  /** Everything above index out is in place. */
  ghost predicate SettledAbove<T(!new)>(s: seq<T>, out: int, cmp: (T, T) --> int, elems: set<T>)
    requires Orders(cmp, elems) && Within(s, elems)
  {
    forall i, j :: 0 <= i < j < |s| && out < j ==> cmp(s[i], s[j]) <= 0
  }

  /** SORT on the first num elements: an ascending permutation, the rest of the array untouched. */
  method BubbleSort<T(!new)>(a: array<T>, num: nat, cmp: (T, T) --> int, ghost elems: set<T>)
    requires num <= a.Length && Orders(cmp, elems) && Within(a[..num], elems)
    modifies a
    ensures multiset(a[..num]) == multiset(old(a[..num])) && a[num..] == old(a[num..])
    ensures Within(a[..num], elems) && Ascending(a[..num], cmp, elems)
  {
    var out := num - 1;
    while out > 0
      invariant -1 <= out < num
      invariant multiset(a[..num]) == multiset(old(a[..num])) && a[num..] == old(a[num..])
      invariant Within(a[..num], elems) && SettledAbove(a[..num], out, cmp, elems)
    {
      SettleNext(a, num, out, cmp, elems);
      out := out - 1;
    }
  }

  /** One round of the outer loop: index out is in place as well. */
  method SettleNext<T(!new)>(a: array<T>, num: nat, out: nat, cmp: (T, T) --> int, ghost elems: set<T>)
    requires out < num <= a.Length && Orders(cmp, elems) && Within(a[..num], elems) && SettledAbove(a[..num], out, cmp, elems)
    modifies a
    ensures multiset(a[..num]) == multiset(old(a[..num])) && a[num..] == old(a[num..])
    ensures Within(a[..num], elems) && SettledAbove(a[..num], out - 1, cmp, elems)
  {
    ghost var s, all := a[..num], a[..];
    assert a[..out + 1] == s[..out + 1];
    BubblePass(a, out, cmp, elems);
    ghost var t := a[..num];
    assert t[..out + 1] == a[..out + 1];
    TailKept(all, a[..], num, out);
    PassKeepsOrder(s, t, out, cmp, elems);
  }

  /** Arrays that agree beyond index out agree beyond num, and between the two. */
  lemma TailKept<T>(before: seq<T>, after: seq<T>, num: nat, out: nat)
    requires out < num <= |before| == |after| && before[out + 1..] == after[out + 1..]
    ensures before[num..] == after[num..] && before[..num][out + 1..] == after[..num][out + 1..]
  {
    forall i | out < i < |before| ensures before[i] == after[i] {
      assert before[i] == before[out + 1..][i - out - 1];
    }
  }

  lemma PassKeepsOrder<T(!new)>(s: seq<T>, t: seq<T>, out: nat, cmp: (T, T) --> int, elems: set<T>)
    requires Orders(cmp, elems) && Within(s, elems) && |s| == |t| && out < |s|
    requires multiset(s[..out + 1]) == multiset(t[..out + 1]) && s[out + 1..] == t[out + 1..]
    requires SettledAbove(s, out, cmp, elems)
    requires Within(t[..out + 1], elems) && GreatestAt(t[..out + 1], out, cmp, elems)
    ensures multiset(t) == multiset(s) && Within(t, elems) && SettledAbove(t, out - 1, cmp, elems)
  {
    assert s == s[..out + 1] + s[out + 1..] && t == t[..out + 1] + t[out + 1..];
    forall i | 0 <= i < |t| ensures t[i] in elems && (out < i ==> t[i] == s[i]) {
      assert i > out ==> t[i] == t[out + 1..][i - out - 1] == s[i];
      assert i <= out ==> t[i] == t[..out + 1][i];
    }
    forall i, j | 0 <= i < j < |t| && out <= j ensures cmp(t[i], t[j]) <= 0 {
      assert i <= out ==> t[i] == t[..out + 1][i];
      if j == out {
        assert t[..out + 1][..out][i] == t[i];
      } else if i <= out {
        SameElements(t[..out + 1], s[..out + 1], t[i]);
        var k :| 0 <= k < out + 1 && s[..out + 1][k] == t[i];
        assert s[k] == t[i];
      }
    }
  }

  /** SEARCH: an element the comparison calls equal, or none when there is none. */
  method Search<T(!new)>(a: array<T>, num: nat, cmp: (T, T) --> int, target: T) returns (found: Option<nat>)
    requires num <= a.Length
    requires forall i :: 0 <= i < num ==> cmp.requires(target, a[i])
    requires forall i, j :: 0 <= i < j < num && cmp(target, a[i]) <= 0 ==> cmp(target, a[j]) < 0
    ensures found.Some? ==> found.value < num && cmp(target, a[found.value]) == 0
    ensures found.None? ==> forall i :: 0 <= i < num ==> cmp(target, a[i]) != 0
  {
    var low, high := 0, num - 1;
    while low <= high
      invariant 0 <= low <= num && -1 <= high < num
      invariant forall i :: 0 <= i < low ==> cmp(target, a[i]) > 0
      invariant forall i :: high < i < num ==> cmp(target, a[i]) < 0
      decreases high - low
    {
      if cmp(target, a[low]) == 0 {
        return Some(low);
      } else if cmp(target, a[high]) == 0 {
        return Some(high);
      } else {
        var mid := (low + high) / 2;
        if mid == low || mid == high {
          return None;
        }
        if cmp(target, a[mid]) < 0 {
          high := mid;
        } else {
          low := mid;
        }
      }
    }
    return None;
  }
}
