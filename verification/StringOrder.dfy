/** The order of Rust strings: by code points, left to right, a proper prefix first. (Comparing the
    UTF-8 bytes gives the same order.) */
module StringOrder {
  predicate Less(a: string, b: string) {
    b != [] && (a == [] || a[0] < b[0] || (a[0] == b[0] && Less(a[1..], b[1..])))
  }

  predicate AtMost(a: string, b: string) {
    a == b || Less(a, b)
  }

  lemma {:induction false} LessIsTotal(a: string, b: string)
    ensures Less(a, b) || a == b || Less(b, a)
  {
    if a != [] && b != [] && a[0] == b[0] {
      LessIsTotal(a[1..], b[1..]);
      assert a[1..] == b[1..] ==> a == [a[0]] + a[1..] == [b[0]] + b[1..] == b;
    }
  }

  lemma {:induction false} LessIsTransitive(a: string, b: string, c: string)
    requires Less(a, b) && Less(b, c)
    ensures Less(a, c)
  {
    if a != [] && a[0] == b[0] && b[0] == c[0] {
      LessIsTransitive(a[1..], b[1..], c[1..]);
    }
  }

  lemma {:induction false} LessIsIrreflexive(a: string)
    ensures !Less(a, a)
  {
    if a != [] { LessIsIrreflexive(a[1..]); }
  }

  lemma LessIsAsymmetric(a: string, b: string)
    requires Less(a, b)
    ensures !Less(b, a) && a != b
  {
    LessIsIrreflexive(a);
    if Less(b, a) { LessIsTransitive(a, b, a); }
  }

  predicate Ascending(s: seq<string>) {
    forall i, j | 0 <= i < j < |s| :: Less(s[i], s[j])
  }

  function Elements(s: seq<string>): (r: set<string>)
    ensures forall x :: x in r <==> x in s
  {
    set x | x in s
  }

  lemma AscendingIsDistinct(s: seq<string>, i: nat, j: nat)
    requires Ascending(s) && i < |s| && j < |s| && s[i] == s[j]
    ensures i == j
  {
    LessIsIrreflexive(s[i]);
  }

  lemma LastIsGreatest(s: seq<string>, x: string)
    requires Ascending(s) && x in s
    ensures AtMost(x, s[|s| - 1])
  {
    var i :| 0 <= i < |s| && s[i] == x;
    if i < |s| - 1 { assert Less(s[i], s[|s| - 1]); }
  }

  lemma EmptyElements(s: seq<string>)
    ensures Elements(s) == {} ==> s == []
  {
    if s != [] { assert s[0] in Elements(s); }
  }

  /** A set has only one ascending listing. */
  lemma {:induction false} AscendingListingIsUnique(a: seq<string>, b: seq<string>)
    requires Ascending(a) && Ascending(b) && Elements(a) == Elements(b)
    ensures a == b
  {
    if a == [] {
      EmptyElements(b);
    } else {
      assert a[|a| - 1] in Elements(b);
      var x, y := a[|a| - 1], b[|b| - 1];
      assert y in Elements(a);
      LastIsGreatest(b, x);
      LastIsGreatest(a, y);
      if x != y { LessIsAsymmetric(x, y); }
      ElementsButLast(a);
      ElementsButLast(b);
      AscendingListingIsUnique(a[..|a| - 1], b[..|b| - 1]);
    }
  }

  lemma ElementsButLast(s: seq<string>)
    requires Ascending(s) && s != []
    ensures Elements(s[..|s| - 1]) == Elements(s) - {s[|s| - 1]}
  {
    var last := s[|s| - 1];
    forall x | x in Elements(s[..|s| - 1]) ensures x in Elements(s) - {last} {
      var i :| 0 <= i < |s| - 1 && s[i] == x;
      if x == last { AscendingIsDistinct(s, i, |s| - 1); }
    }
    forall x | x in Elements(s) - {last} ensures x in Elements(s[..|s| - 1]) {
      var i :| 0 <= i < |s| && s[i] == x;
      assert s[..|s| - 1][i] == x;
    }
  }
}
