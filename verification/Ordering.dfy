/** The lexicographic order of names, and the one strictly increasing listing of
    a finite set of names that sorting its elements gives. */
module Ordering {
  import opened Api

  predicate TextLess(a: string, b: string) {
    if b == "" then false
    else if a == "" then true
    else a[0] < b[0] || (a[0] == b[0] && TextLess(a[1..], b[1..]))
  }

  predicate Less(a: Name, b: Name) {
    TextLess(a.text, b.text)
  }

  /** The texts agree on their first `k` characters, and there `a` ends or is smaller. */
  predicate DiffersAt(a: string, b: string, k: nat) {
    && k <= |a| && k < |b| && a[..k] == b[..k] && (k == |a| || a[k] < b[k])
  }

  /** The order is that of the first difference; a text comes after its beginnings. */
  lemma {:induction false} TextLessExactly(a: string, b: string)
    ensures TextLess(a, b) <==> exists k: nat :: DiffersAt(a, b, k)
  {
    if a == "" || b == "" || a[0] != b[0] {
      assert TextLess(a, b) ==> DiffersAt(a, b, 0);
      assert forall k: nat :: 0 < k && DiffersAt(a, b, k) ==> a[..k][0] == b[..k][0];
    } else {
      TextLessExactly(a[1..], b[1..]);
      if k: nat :| DiffersAt(a[1..], b[1..], k) {
        assert a[..k + 1] == [a[0]] + a[1..][..k] && b[..k + 1] == [b[0]] + b[1..][..k];
        assert DiffersAt(a, b, k + 1);
      }
      if k: nat :| DiffersAt(a, b, k) {
        assert a[1..][..k - 1] == a[..k][1..] && b[1..][..k - 1] == b[..k][1..];
        assert DiffersAt(a[1..], b[1..], k - 1);
      }
    }
  }

  lemma {:induction false} TextLessTotal(a: string, b: string)
    ensures TextLess(a, b) || TextLess(b, a) || a == b
    ensures !(TextLess(a, b) && TextLess(b, a))
    ensures !TextLess(a, a)
  {
    if a != "" && b != "" {
      TextLessTotal(a[1..], b[1..]);
      assert a == [a[0]] + a[1..] && b == [b[0]] + b[1..];
    }
    if a != "" {
      TextLessTotal(a[1..], a[1..]);
    }
  }

  lemma {:induction false} TextLessTransitive(a: string, b: string, c: string)
    requires TextLess(a, b) && TextLess(b, c)
    ensures TextLess(a, c)
  {
    if a != "" && a[0] == b[0] == c[0] {
      TextLessTransitive(a[1..], b[1..], c[1..]);
    }
  }

  lemma LessTotal(a: Name, b: Name)
    ensures Less(a, b) || Less(b, a) || a == b
    ensures !(Less(a, b) && Less(b, a))
    ensures !Less(a, a)
  {
    TextLessTotal(a.text, b.text);
  }

  lemma LessTransitive(a: Name, b: Name, c: Name)
    requires Less(a, b) && Less(b, c)
    ensures Less(a, c)
  {
    TextLessTransitive(a.text, b.text, c.text);
  }

  ghost predicate Increasing(s: seq<Name>) {
    forall i, j :: 0 <= i < j < |s| ==> Less(s[i], s[j])
  }

  /** `s` lists exactly the elements of `names`, in strictly increasing order. */
  ghost predicate Lists(s: seq<Name>, names: set<Name>) {
    Increasing(s) && forall n :: n in s <==> n in names
  }

  ghost predicate IsLeast(m: Name, names: set<Name>) {
    m in names && forall n :: n in names ==> n == m || Less(m, n)
  }

  lemma {:induction false} LeastExists(names: set<Name>)
    requires names != {}
    ensures exists m :: IsLeast(m, names)
  {
    var m :| m in names;
    var rest := names - {m};
    assert forall n :: n in names ==> n == m || n in rest;
    if rest == {} {
      assert IsLeast(m, names);
    } else {
      LeastExists(rest);
      var r :| IsLeast(r, rest);
      LessTotal(m, r);
      if Less(r, m) {
        assert IsLeast(r, names);
      } else {
        forall n | n in rest ensures Less(m, n) {
          if n != r { LessTransitive(m, r, n); }
        }
        assert IsLeast(m, names);
      }
    }
  }

  /** Two increasing listings of one set are the same sequence. */
  lemma {:induction false} ListsUnique(s: seq<Name>, t: seq<Name>, names: set<Name>)
    requires Lists(s, names) && Lists(t, names)
    ensures s == t
    decreases |s|
  {
    if t != [] {
      assert t[0] in t;
      assert t[0] in s;
    }
    if s == [] {
    } else {
      assert s[0] in s;
      assert s[0] in t;
      assert t[0] in s;
      var i :| 0 <= i < |t| && t[i] == s[0];
      var j :| 0 <= j < |s| && s[j] == t[0];
      LessTotal(s[0], t[0]);
      assert s[0] == t[0];
      var rest := names - {s[0]};
      TailLists(s, names);
      TailLists(t, names);
      ListsUnique(s[1..], t[1..], rest);
      assert s == [s[0]] + s[1..] && t == [t[0]] + t[1..];
    }
  }

  lemma TailLists(s: seq<Name>, names: set<Name>)
    requires Lists(s, names) && s != []
    ensures Lists(s[1..], names - {s[0]})
  {
    forall n ensures n in s[1..] <==> n in names - {s[0]} {
      if n in s[1..] {
        var i :| 0 <= i < |s[1..]| && s[1..][i] == n;
        assert s[i + 1] == n;
        LessTotal(s[0], n);
      }
    }
  }

  ghost function Sorted(names: set<Name>): seq<Name> {
    if names == {} then [] else
    LeastExists(names);
    var m :| IsLeast(m, names);
    [m] + Sorted(names - {m})
  }

  lemma PrependLeast(m: Name, s: seq<Name>, names: set<Name>)
    requires IsLeast(m, names) && Lists(s, names - {m})
    ensures Lists([m] + s, names)
  {
    assert forall i :: 0 <= i < |s| ==> s[i] in s;
    assert forall n :: n in [m] + s <==> n == m || n in s;
  }

  lemma {:induction false} SortedLists(names: set<Name>)
    ensures Lists(Sorted(names), names)
  {
    if names == {} {
    } else {
      LeastExists(names);
      var m := Sorted(names)[0];
      SortedLists(names - {m});
      PrependLeast(m, Sorted(names - {m}), names);
    }
  }

  /** slices.Sort over the keys of a map: the result is `Sorted(names)` whatever
      order the keys were collected in. */
  method SortKeys(names: set<Name>) returns (s: seq<Name>)
    ensures s == Sorted(names)
  {
    s := [];
    var todo := names;
    while todo != {}
      invariant todo <= names
      invariant Lists(s, names - todo)
      invariant forall m, n :: m in s && n in todo ==> Less(m, n)
      decreases todo
    {
      LeastExists(todo);
      assert exists m :: m in todo && forall n :: n in todo ==> n == m || Less(m, n) by {
        var m :| IsLeast(m, todo);
      }
      var m :| m in todo && forall n :: n in todo ==> n == m || Less(m, n);
      ghost var before := s;
      s := s + [m];
      assert forall i :: 0 <= i < |before| ==> before[i] in before;
      assert forall n :: n in s <==> n in before || n == m;
      assert names - (todo - {m}) == (names - todo) + {m};
      todo := todo - {m};
    }
    assert names - todo == names;
    SortedLists(names);
    ListsUnique(s, Sorted(names), names);
  }

  /** The element at `i` moved to the front, the others in their order. */
  function ToFront<T>(s: seq<T>, i: nat): (t: seq<T>)
    requires i < |s|
    ensures |t| == |s| && t[0] == s[i]
    ensures forall j :: 0 < j < |t| ==> t[j] == if j <= i then s[j - 1] else s[j]
  {
    [s[i]] + s[..i] + s[i + 1..]
  }

  lemma ToFrontAppend<T>(s: seq<T>, i: nat, x: T)
    requires i < |s|
    ensures ToFront(s + [x], i) == ToFront(s, i) + [x]
  {
    assert (s + [x])[..i] == s[..i] && (s + [x])[i + 1..] == s[i + 1..] + [x];
  }

  lemma ToFrontPermutes<T>(s: seq<T>, i: nat)
    requires i < |s|
    ensures multiset(ToFront(s, i)) == multiset(s)
  {
    assert s == s[..i] + [s[i]] + s[i + 1..];
  }

  lemma PermutationMembers<T>(s: seq<T>, t: seq<T>)
    requires multiset(s) == multiset(t)
    ensures forall x :: x in s <==> x in t
  {
    forall x ensures x in s <==> x in t {
      assert x in s <==> x in multiset(s);
      assert x in t <==> x in multiset(t);
    }
  }
}
