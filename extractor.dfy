/**
 * The reference extractor (imaget.go, extractImageURLs): the matches of
 * the image-URL pattern, deduplicated with the first occurrence winning,
 * then kept only when the optional regular expression matches them.
 */
module Extractor {
  import opened Wrappers

  /** The optional `Download.Regex`, as the predicate its MatchString computes. */
  type Regex = Option<string -> bool>

  predicate Accepts(regex: Regex, url: string) {
    regex.None? || regex.value(url)
  }

  predicate NoDuplicates(s: seq<string>) {
    forall i, j :: 0 <= i < j < |s| ==> s[i] != s[j]
  }

  /** The position of the first occurrence of `x` in `s`. */
  function FirstIndex(s: seq<string>, x: string): (k: nat)
    requires x in s
    ensures k < |s| && s[k] == x && x !in s[..k]
  {
    if x in s[..|s| - 1] then FirstIndex(s[..|s| - 1], x) else |s| - 1
  }

  /** Every element of `r` occurs in `s`, and `r` lists them in the order of their first occurrence in `s`. */
  predicate InFirstOccurrenceOrder(r: seq<string>, s: seq<string>) {
    (forall x :: x in r ==> x in s) &&
    forall i, j :: 0 <= i < j < |r| && r[i] in s && r[j] in s ==> FirstIndex(s, r[i]) < FirstIndex(s, r[j])
  }

  /** The deduplicated matches: each distinct string once, where it first occurs. */
  function Dedup(s: seq<string>): seq<string>
  {
    if s == [] then []
    else
      var d := Dedup(s[..|s| - 1]);
      if s[|s| - 1] in d then d else d + [s[|s| - 1]]
  }

  /** The elements of `s` that `p` accepts, in order. */
  function KeepIf(s: seq<string>, p: string -> bool): seq<string>
  {
    if s == [] then []
    else
      var k := KeepIf(s[..|s| - 1], p);
      if p(s[|s| - 1]) then k + [s[|s| - 1]] else k
  }

  /** What extractImageURLs returns for the pattern's matches `matches`. */
  function ImageURLs(matches: seq<string>, regex: Regex): seq<string>
  {
    match regex
    case None => Dedup(matches)
    case Some(p) => KeepIf(Dedup(matches), p)
  }

  /**
   * Deduplication keeps exactly the distinct matches, each once, in the
   * order in which they first occur.
   */
  lemma {:induction false} DedupSpec(s: seq<string>)
    ensures forall x :: x in Dedup(s) <==> x in s
    ensures NoDuplicates(Dedup(s))
    ensures InFirstOccurrenceOrder(Dedup(s), s)
  {
    if s != [] {
      var s' := s[..|s| - 1];
      var last := s[|s| - 1];
      var d := Dedup(s');
      DedupSpec(s');
      assert s == s' + [last];
      assert forall x :: x in s <==> x in s' || x == last;
      forall x | x in s'
        ensures FirstIndex(s, x) == FirstIndex(s', x)
      {
        assert s[..|s| - 1] == s';
      }
      if last !in d {
        assert FirstIndex(s, last) == |s| - 1 by {
          assert s[..|s| - 1] == s';
        }
        var r := d + [last];
        forall i, j | 0 <= i < j < |r|
          ensures FirstIndex(s, r[i]) < FirstIndex(s, r[j])
        {
          if j < |d| {
            assert r[i] == d[i] && r[j] == d[j];
          } else {
            assert r[i] == d[i] && r[i] in s';
          }
        }
      }
    }
  }

  /** Filtering keeps exactly the accepted elements. */
  lemma {:induction false} KeepIfMembers(s: seq<string>, p: string -> bool)
    ensures forall x :: x in KeepIf(s, p) <==> x in s && p(x)
  {
    if s != [] {
      KeepIfMembers(s[..|s| - 1], p);
      assert s == s[..|s| - 1] + [s[|s| - 1]];
    }
  }

  /** Filtering a sequence without repetitions does not introduce any. */
  lemma {:induction false} KeepIfNoDuplicates(s: seq<string>, p: string -> bool)
    requires NoDuplicates(s)
    ensures NoDuplicates(KeepIf(s, p))
  {
    if s != [] {
      var s' := s[..|s| - 1];
      KeepIfNoDuplicates(s', p);
      KeepIfMembers(s', p);
      assert s[|s| - 1] !in s';
    }
  }

  /** Filtering keeps the order of first occurrence. */
  lemma {:induction false} KeepIfOrder(s: seq<string>, p: string -> bool, m: seq<string>)
    requires InFirstOccurrenceOrder(s, m)
    ensures InFirstOccurrenceOrder(KeepIf(s, p), m)
  {
    if s != [] {
      var s' := s[..|s| - 1];
      var last := s[|s| - 1];
      var k := KeepIf(s', p);
      assert InFirstOccurrenceOrder(s', m) by {
        forall i, j | 0 <= i < j < |s'| ensures s'[i] == s[i] && s'[j] == s[j] { }
      }
      KeepIfOrder(s', p, m);
      KeepIfMembers(s', p);
      if p(last) {
        var r := k + [last];
        forall i, j | 0 <= i < j < |r|
          ensures FirstIndex(m, r[i]) < FirstIndex(m, r[j])
        {
          if j < |k| {
            assert r[i] == k[i] && r[j] == k[j];
          } else {
            assert r[i] == k[i] && r[i] in s';
            var a :| 0 <= a < |s'| && s'[a] == r[i];
            assert s[a] == r[i] && s[|s| - 1] == last;
          }
        }
      }
    }
  }

  /**
   * extractImageURLs: no URL twice; exactly the matches the regex accepts
   * (all distinct matches when there is no regex); in the order of their
   * first occurrence among the matches.
   */
  lemma ImageURLsSpec(matches: seq<string>, regex: Regex)
    ensures NoDuplicates(ImageURLs(matches, regex))
    ensures forall x :: x in ImageURLs(matches, regex) <==> x in matches && Accepts(regex, x)
    ensures InFirstOccurrenceOrder(ImageURLs(matches, regex), matches)
    ensures regex.None? ==> ImageURLs(matches, regex) == Dedup(matches)
  {
    DedupSpec(matches);
    if regex.Some? {
      KeepIfMembers(Dedup(matches), regex.value);
      KeepIfNoDuplicates(Dedup(matches), regex.value);
      KeepIfOrder(Dedup(matches), regex.value, matches);
    }
  }

  /** Dropping the last element `x` keeps the two properties and removes just `x`. */
  lemma DropLast(p: seq<string>, x: string, s: seq<string>)
    requires NoDuplicates(p + [x]) && InFirstOccurrenceOrder(p + [x], s)
    ensures NoDuplicates(p) && InFirstOccurrenceOrder(p, s)
    ensures forall z :: z in p <==> z in p + [x] && z != x
  {
    var r := p + [x];
    forall i, j | 0 <= i < j < |p| ensures p[i] == r[i] && p[j] == r[j] { }
    assert forall i :: 0 <= i < |p| ==> p[i] == r[i] && r[i] != r[|p|];
  }

  /** The last element is the one whose first occurrence is latest. */
  lemma LastOccursLatest(r: seq<string>, s: seq<string>)
    requires r != [] && InFirstOccurrenceOrder(r, s)
    ensures forall z :: z in r ==> FirstIndex(s, z) <= FirstIndex(s, r[|r| - 1])
  {
    forall z | z in r ensures FirstIndex(s, z) <= FirstIndex(s, r[|r| - 1]) {
      var i :| 0 <= i < |r| && r[i] == z;
      if i < |r| - 1 {
        assert FirstIndex(s, r[i]) < FirstIndex(s, r[|r| - 1]);
      }
    }
  }

  /** Of two such sequences with the same elements, the last elements agree. */
  lemma LastAgree(r1: seq<string>, r2: seq<string>, s: seq<string>)
    requires r1 != [] && r2 != []
    requires forall x :: x in r1 <==> x in r2
    requires InFirstOccurrenceOrder(r1, s) && InFirstOccurrenceOrder(r2, s)
    ensures r1[|r1| - 1] == r2[|r2| - 1]
  {
    var x, y := r1[|r1| - 1], r2[|r2| - 1];
    LastOccursLatest(r1, s);
    LastOccursLatest(r2, s);
    assert x in r2 && y in r1;
    assert FirstIndex(s, x) == FirstIndex(s, y);
  }

  /**
   * The three properties of ImageURLsSpec leave no choice: two sequences
   * without repetitions, with the same elements, both in first-occurrence
   * order, are equal.
   */
  lemma {:induction false} FirstOccurrenceOrderUnique(r1: seq<string>, r2: seq<string>, s: seq<string>)
    requires NoDuplicates(r1) && NoDuplicates(r2)
    requires forall x :: x in r1 <==> x in r2
    requires InFirstOccurrenceOrder(r1, s) && InFirstOccurrenceOrder(r2, s)
    ensures r1 == r2
    decreases |r1|
  {
    NonEmptyHasMember(r1);
    NonEmptyHasMember(r2);
    if r1 != [] && r2 != [] {
      var p1, p2 := r1[..|r1| - 1], r2[..|r2| - 1];
      UniqueStep(r1, r2, s);
      FirstOccurrenceOrderUnique(p1, p2, s);
    }
  }

  /** Both sequences end in the same element, and what precedes it again meets the requirements. */
  lemma UniqueStep(r1: seq<string>, r2: seq<string>, s: seq<string>)
    requires r1 != [] && r2 != []
    requires NoDuplicates(r1) && NoDuplicates(r2)
    requires forall x :: x in r1 <==> x in r2
    requires InFirstOccurrenceOrder(r1, s) && InFirstOccurrenceOrder(r2, s)
    ensures r1 == r1[..|r1| - 1] + [r2[|r2| - 1]] && r2 == r2[..|r2| - 1] + [r2[|r2| - 1]]
    ensures var p1, p2 := r1[..|r1| - 1], r2[..|r2| - 1];
      NoDuplicates(p1) && NoDuplicates(p2) && (forall x :: x in p1 <==> x in p2) &&
      InFirstOccurrenceOrder(p1, s) && InFirstOccurrenceOrder(p2, s)
  {
    var p1, p2 := r1[..|r1| - 1], r2[..|r2| - 1];
    var x := r1[|r1| - 1];
    LastAgree(r1, r2, s);
    assert r1 == p1 + [x] && r2 == p2 + [x];
    DropLast(p1, x, s);
    DropLast(p2, x, s);
  }

  lemma NonEmptyHasMember(r: seq<string>)
    ensures r != [] ==> r[0] in r
  {
  }

  /** extractImageURLs, as the source runs it: a seen-set loop, then a filtering loop. */
  method ExtractImageURLs(matches: seq<string>, regex: Regex) returns (urls: seq<string>)
    ensures urls == ImageURLs(matches, regex)
    ensures NoDuplicates(urls)
    ensures forall x :: x in urls <==> x in matches && Accepts(regex, x)
    ensures InFirstOccurrenceOrder(urls, matches)
  {
    var a := matches;
    var b: seq<string> := [];
    var c: set<string> := {};
    var i := 0;
    while i < |a|
      invariant 0 <= i <= |a|
      invariant b == Dedup(a[..i])
      invariant forall x :: x in c <==> x in b
    {
      var s := a[i];
      assert a[..i + 1][..i] == a[..i];
      i := i + 1;
      if s in c {
        continue;
      }
      c := c + {s};
      b := b + [s];
    }
    assert a[..i] == matches;
    a := [];
    if regex.Some? {
      var j := 0;
      while j < |b|
        invariant 0 <= j <= |b|
        invariant a == KeepIf(b[..j], regex.value)
      {
        assert b[..j + 1][..j] == b[..j];
        if regex.value(b[j]) {
          a := a + [b[j]];
        }
        j := j + 1;
      }
      assert b[..j] == b;
      ImageURLsSpec(matches, regex);
      return a;
    }
    ImageURLsSpec(matches, regex);
    return b;
  }
}
