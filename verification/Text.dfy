/** Strings as Python sees them: sequences of code points, compared code point by code point.
    SQLite's BINARY collation on UTF-8 text is the same order. */
module Text {

  datatype Option<+T> = None | Some(value: T)

  /** `a` comes strictly before `b`. */
  predicate Less(a: string, b: string) {
    b != "" && (a == "" || a[0] < b[0] || (a[0] == b[0] && Less(a[1..], b[1..])))
  }

  predicate Leq(a: string, b: string) {
    a == b || Less(a, b)
  }

  lemma {:induction false} LessIsTotal(a: string, b: string)
    ensures a == b || Less(a, b) || Less(b, a)
    ensures !(a == b && Less(a, b)) && !(Less(a, b) && Less(b, a))
  {
    if a != "" && b != "" && a[0] == b[0] {
      LessIsTotal(a[1..], b[1..]);
      assert a == [a[0]] + a[1..] && b == [b[0]] + b[1..];
    }
  }

  lemma {:induction false} LessIsTransitive(a: string, b: string, c: string)
    requires Less(a, b) && Less(b, c)
    ensures Less(a, c)
  {
    if a != "" && a[0] == b[0] == c[0] {
      LessIsTransitive(a[1..], b[1..], c[1..]);
    }
  }

  /** Heads of equal length decide first; the tails decide only between equal heads. */
  lemma {:induction false} LessByHeads(p: string, q: string, s: string, t: string)
    requires |p| == |q|
    ensures Less(p + s, q + t) <==> Less(p, q) || (p == q && Less(s, t))
  {
    if p == "" {
      assert p + s == s && q + t == t;
    } else {
      LessByHeads(p[1..], q[1..], s, t);
      assert (p + s)[1..] == p[1..] + s && (q + t)[1..] == q[1..] + t;
      assert p == [p[0]] + p[1..] && q == [q[0]] + q[1..];
    }
  }

  /* ---------- sorting ---------- */

  function Insert(x: string, s: seq<string>): seq<string> {
    if s == [] || Leq(x, s[0]) then [x] + s else [s[0]] + Insert(x, s[1..])
  }

  /** Python's `sorted` on a list of strings. */
  function Sort(s: seq<string>): seq<string> {
    if s == [] then [] else Insert(s[|s| - 1], Sort(s[..|s| - 1]))
  }

  ghost predicate StrictlySorted(s: seq<string>) {
    forall i, j | 0 <= i < j < |s| :: Less(s[i], s[j])
  }

  ghost predicate Sorted(s: seq<string>) {
    forall i, j | 0 <= i < j < |s| :: Leq(s[i], s[j])
  }

  lemma {:induction false} InsertCommutes(x: string, y: string, s: seq<string>)
    ensures Insert(x, Insert(y, s)) == Insert(y, Insert(x, s))
  {
    LessIsTotal(x, y);
    if s != [] {
      LessIsTotal(x, s[0]);
      LessIsTotal(y, s[0]);
      if Leq(x, s[0]) && Less(s[0], y) {
        if Less(x, s[0]) { LessIsTransitive(x, s[0], y); }
        assert ([x] + s)[1..] == s;
      } else if Leq(y, s[0]) && Less(s[0], x) {
        if Less(y, s[0]) { LessIsTransitive(y, s[0], x); }
        assert ([y] + s)[1..] == s;
      } else if Less(s[0], x) && Less(s[0], y) {
        InsertCommutes(x, y, s[1..]);
        assert ([s[0]] + Insert(y, s[1..]))[1..] == Insert(y, s[1..]);
        assert ([s[0]] + Insert(x, s[1..]))[1..] == Insert(x, s[1..]);
      } else {
        assert ([x] + s)[1..] == s && ([y] + s)[1..] == s;
      }
    }
  }

  lemma {:induction false} InsertKeepsContents(x: string, s: seq<string>)
    ensures multiset(Insert(x, s)) == multiset(s) + multiset{x}
    ensures |Insert(x, s)| == |s| + 1
    ensures forall y :: y in Insert(x, s) <==> y == x || y in s
  {
    if s != [] && !Leq(x, s[0]) {
      InsertKeepsContents(x, s[1..]);
      assert s == [s[0]] + s[1..];
    }
  }

  lemma {:induction false} InsertKeepsSorted(x: string, s: seq<string>)
    requires Sorted(s)
    ensures Sorted(Insert(x, s))
    ensures StrictlySorted(s) && x !in s ==> StrictlySorted(Insert(x, s))
  {
    if s != [] {
      LessIsTotal(x, s[0]);
      if Leq(x, s[0]) {
        forall j | 0 <= j < |s| && Less(x, s[0]) && Less(s[0], s[j]) ensures Less(x, s[j]) {
          LessIsTransitive(x, s[0], s[j]);
        }
      } else {
        InsertKeepsSorted(x, s[1..]);
        InsertKeepsContents(x, s[1..]);
        var r := Insert(x, s[1..]);
        forall j | 0 <= j < |r| ensures Leq(s[0], r[j]) && (StrictlySorted(s) ==> Less(s[0], r[j])) {
          assert r[j] in r;
        }
      }
    }
  }

  lemma {:induction false} SortSorts(s: seq<string>)
    ensures Sorted(Sort(s)) && multiset(Sort(s)) == multiset(s)
  {
    if s != [] {
      var front := s[..|s| - 1];
      SortSorts(front);
      InsertKeepsSorted(s[|s| - 1], Sort(front));
      InsertKeepsContents(s[|s| - 1], Sort(front));
      assert s == front + [s[|s| - 1]];
    }
  }

  lemma SortAppend(s: seq<string>, x: string)
    ensures Sort(s + [x]) == Insert(x, Sort(s))
  {
    assert (s + [x])[..|s|] == s;
  }

  lemma TailOfStrictlySorted(s: seq<string>, x: string)
    requires StrictlySorted(s) && s != []
    ensures x in s[1..] <==> x in s && x != s[0]
  {
    LessIsTotal(x, x);
    assert s == [s[0]] + s[1..];
    if x in s[1..] {
      var j :| 0 <= j < |s[1..]| && s[1..][j] == x;
      assert Less(s[0], s[j + 1]);
    }
  }

  lemma NonEmptyHasElement(s: seq<string>)
    ensures s != [] ==> exists x :: x in s
  {
    if s != [] { assert s[0] in s; }
  }

  /** A strictly sorted list is determined by its elements. */
  lemma {:induction false} StrictlySortedIsUnique(s: seq<string>, t: seq<string>)
    requires StrictlySorted(s) && StrictlySorted(t)
    requires forall x :: x in s <==> x in t
    ensures s == t
  {
    if s == [] || t == [] {
      NonEmptyHasElement(s);
      NonEmptyHasElement(t);
    } else {
      assert s[0] in t && t[0] in s;
      LessIsTotal(s[0], t[0]);
      assert s[0] == t[0];
      forall x ensures x in s[1..] <==> x in t[1..] {
        TailOfStrictlySorted(s, x);
        TailOfStrictlySorted(t, x);
      }
      StrictlySortedIsUnique(s[1..], t[1..]);
      assert s == [s[0]] + s[1..] && t == [t[0]] + t[1..];
    }
  }

  /* ---------- sorted listings of sets ---------- */

  ghost function Pick<T>(s: set<T>): T
    requires s != {}
  {
    var x :| x in s; x
  }

  /** The texts of the elements of a set, sorted, whatever order the set is iterated in. */
  ghost function SortedTexts<T>(keys: set<T>, text: T -> string): seq<string> {
    if keys == {} then [] else Insert(text(Pick(keys)), SortedTexts(keys - {Pick(keys)}, text))
  }

  /** The choice of iteration order does not matter. */
  lemma {:induction false} SortedTextsAdd<T>(keys: set<T>, k: T, text: T -> string)
    requires k !in keys
    ensures SortedTexts(keys + {k}, text) == Insert(text(k), SortedTexts(keys, text))
    decreases keys
  {
    var p := Pick(keys + {k});
    if p == k {
      assert keys + {k} - {k} == keys;
    } else {
      var rest := keys - {p};
      assert keys + {k} - {p} == rest + {k} && keys == rest + {p};
      SortedTextsAdd(rest, k, text);
      SortedTextsAdd(rest, p, text);
      InsertCommutes(text(p), text(k), SortedTexts(rest, text));
    }
  }

  ghost predicate InjectiveOn<T(!new)>(keys: set<T>, text: T -> string) {
    forall k, l | k in keys && l in keys && text(k) == text(l) :: k == l
  }

  lemma {:induction false} SortedTextsContents<T(!new)>(keys: set<T>, text: T -> string)
    ensures |SortedTexts(keys, text)| == |keys|
    ensures Sorted(SortedTexts(keys, text))
    ensures forall x :: x in SortedTexts(keys, text) <==> exists k :: k in keys && text(k) == x
    decreases keys
  {
    if keys != {} {
      var p := Pick(keys);
      SortedTextsContents(keys - {p}, text);
      InsertKeepsContents(text(p), SortedTexts(keys - {p}, text));
      InsertKeepsSorted(text(p), SortedTexts(keys - {p}, text));
      forall x | x in SortedTexts(keys, text) ensures exists k :: k in keys && text(k) == x {
        if x == text(p) {
          assert p in keys;
        } else {
          var k :| k in keys - {p} && text(k) == x;
          assert k in keys;
        }
      }
      forall k | k in keys ensures text(k) in SortedTexts(keys, text) {
        if k != p { assert k in keys - {p}; }
      }
    }
  }

  /** No two equal entries exactly when no two elements share a text. */
  lemma {:induction false} SortedTextsStrict<T(!new)>(keys: set<T>, text: T -> string)
    ensures StrictlySorted(SortedTexts(keys, text)) <==> InjectiveOn(keys, text)
    decreases keys
  {
    if keys != {} {
      var p := Pick(keys);
      var rest := keys - {p};
      SortedTextsStrict(rest, text);
      SortedTextsContents(rest, text);
      var list := SortedTexts(rest, text);
      InsertKeepsSorted(text(p), list);
      if InjectiveOn(keys, text) {
        assert InjectiveOn(rest, text);
        assert forall k | k in rest :: text(k) != text(p);
      } else {
        var k, l :| k in keys && l in keys && text(k) == text(l) && k != l;
        if k == p || l == p {
          var o := if k == p then l else k;
          assert o in rest;
          DuplicateInsert(text(p), list);
        } else {
          assert !InjectiveOn(rest, text);
          StrictInsertMeansStrict(text(p), list);
        }
      }
    }
  }

  lemma {:induction false} DuplicateInsert(x: string, s: seq<string>)
    requires x in s
    ensures !StrictlySorted(Insert(x, s))
  {
    if Leq(x, s[0]) {
      var r := Insert(x, s);
      var j :| 0 <= j < |s| && s[j] == x;
      LessIsTotal(x, x);
      assert r[0] == r[j + 1];
    } else {
      LessIsTotal(x, s[0]);
      assert s == [s[0]] + s[1..];
      DuplicateInsert(x, s[1..]);
      var r := Insert(x, s[1..]);
      var i, j :| 0 <= i < j < |r| && !Less(r[i], r[j]);
      assert Insert(x, s)[i + 1] == r[i] && Insert(x, s)[j + 1] == r[j];
    }
  }

  lemma {:induction false} StrictInsertMeansStrict(x: string, s: seq<string>)
    ensures StrictlySorted(Insert(x, s)) ==> StrictlySorted(s)
  {
    if StrictlySorted(Insert(x, s)) && s != [] {
      var r := Insert(x, s);
      if Leq(x, s[0]) {
        assert s == r[1..];
      } else {
        assert r[1..] == Insert(x, s[1..]);
        StrictInsertMeansStrict(x, s[1..]);
        InsertKeepsContents(x, s[1..]);
        forall j | 0 < j < |s| ensures Less(s[0], s[j]) {
          assert s[j] == s[1..][j - 1];
          assert s[j] in r[1..];
        }
      }
    }
  }

  /** The strictly sorted listing of a set of strings. */
  ghost function Listing(keys: set<string>): seq<string> {
    SortedTexts(keys, (x: string) => x)
  }

  lemma ListingListsSet(keys: set<string>)
    ensures StrictlySorted(Listing(keys)) && |Listing(keys)| == |keys|
    ensures forall x :: x in Listing(keys) <==> x in keys
  {
    SortedTextsContents(keys, (x: string) => x);
    SortedTextsStrict(keys, (x: string) => x);
  }
}
