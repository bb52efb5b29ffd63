/**
 * The parts of Go's `path/filepath` package (with `/` as the separator)
 * that the downloader relies on: Ext, Base, Join of a clean root with one
 * element, and Clean of a rooted path seen as a list of elements.
 */
module FilePath {

  const Separator: char := '/'

  /** The final element of `p`: everything after its last separator. */
  function LastElement(p: string): (r: string)
    ensures Separator !in r
    ensures |r| <= |p| && r == p[|p| - |r|..]
    ensures |r| < |p| ==> p[|p| - |r| - 1] == Separator
  {
    if p == [] then []
    else if p[|p| - 1] == Separator then []
    else LastElement(p[..|p| - 1]) + [p[|p| - 1]]
  }

  /**
   * filepath.Ext: the suffix of the final element that starts at its last
   * dot, or the empty string when the final element has no dot.
   */
  function Ext(p: string): (r: string)
    ensures r == [] <==> '.' !in LastElement(p)
    ensures r != [] ==> r[0] == '.' && '.' !in r[1..]
    ensures |r| <= |LastElement(p)| && r == LastElement(p)[|LastElement(p)| - |r|..]
    ensures Separator !in r
  {
    if p == [] || p[|p| - 1] == Separator then []
    else
      var q, c := p[..|p| - 1], p[|p| - 1];
      var l := LastElement(q);
      LastElementStep(p);
      if c == '.' then
        DotStep(l);
        ['.']
      else
        var e := Ext(q);
        ExtStep(l, e, c);
        if e == [] then [] else e + [c]
  }

  lemma LastElementStep(p: string)
    requires p != [] && p[|p| - 1] != Separator
    ensures LastElement(p) == LastElement(p[..|p| - 1]) + [p[|p| - 1]]
  {
  }

  lemma DotStep(l: string)
    ensures '.' in l + ['.'] && (l + ['.'])[|l|..] == ['.']
  {
    assert (l + ['.'])[|l|] == '.';
  }

  lemma ExtStep(l: string, e: string, c: char)
    requires c != '.' && c != Separator
    requires e == [] <==> '.' !in l
    requires e != [] ==> e[0] == '.' && '.' !in e[1..]
    requires |e| <= |l| && e == l[|l| - |e|..]
    requires Separator !in e
    ensures e == [] ==> '.' !in l + [c]
    ensures e != [] ==> '.' in l + [c] && (e + [c])[0] == '.' && '.' !in (e + [c])[1..]
    ensures e != [] ==> (l + [c])[|l| + 1 - |e + [c]|..] == e + [c]
    ensures Separator !in e + [c]
  {
    if e != [] {
      assert (e + [c])[1..] == e[1..] + [c];
      assert (l + [c])[|l| + 1 - |e + [c]|..] == l[|l| - |e|..] + [c];
      assert e[0] == l[|l| - |e|];
    }
  }

  /** The longest prefix of `p` that does not end in a separator. */
  function TrimTrailingSeparators(p: string): (r: string)
    ensures |r| <= |p| && r == p[..|r|]
    ensures r == [] || r[|r| - 1] != Separator
    ensures forall i :: |r| <= i < |p| ==> p[i] == Separator
  {
    if p == [] || p[|p| - 1] != Separator then p
    else TrimTrailingSeparators(p[..|p| - 1])
  }

  /**
   * filepath.Base: the last element of `p` once trailing separators are
   * removed; "." for the empty path and "/" for a path of separators only.
   */
  function Base(p: string): (r: string)
    ensures r != []
    ensures r == [Separator] || Separator !in r
    ensures p != [] && p[|p| - 1] != Separator ==> r == LastElement(p)
    ensures r == [Separator] <==> p != [] && forall i :: 0 <= i < |p| ==> p[i] == Separator
  {
    if p == [] then "."
    else
      var q := TrimTrailingSeparators(p);
      if q == [] then [Separator]
      else
        assert q[|q| - 1] != Separator && q[|q| - 1] == p[|q| - 1];
        LastElement(q)
  }

  /** A single, non-special path element, as filepath.Clean leaves it. */
  predicate IsNamedElement(e: string) {
    e != [] && e != "." && e != ".." && Separator !in e
  }

  /**
   * A path as filepath.Clean leaves it, other than "/" and ".": a separator
   * followed by named elements, or a relative path of ".." elements
   * followed by named elements, one separator apart.
   */
  predicate IsClean(p: string) {
    p != [] && CleanElements(Split(p))
  }

  /** The elements of a clean path, as `IsClean` describes them. */
  predicate CleanElements(es: seq<string>) {
    |es| >= 1 &&
    if es[0] == [] then forall i :: 1 <= i < |es| ==> IsNamedElement(es[i])
    else
      (forall i :: 0 <= i < |es| ==> IsNamedElement(es[i]) || es[i] == "..") &&
      (forall i, j :: 0 <= i < j < |es| && es[j] == ".." ==> es[i] == "..")
  }

  /** A named element after clean elements keeps them clean. */
  lemma CleanElementsAppend(es: seq<string>, name: string)
    requires CleanElements(es) && IsNamedElement(name)
    ensures CleanElements(es + [name])
  {
    var es' := es + [name];
    assert es'[0] == es[0] && es'[|es|] == name;
    assert forall i :: 0 <= i < |es| ==> es'[i] == es[i];
  }

  /** An absolute path as filepath.Abs returns it: the root, or a clean path that starts at the root. */
  predicate IsAbsClean(p: string) {
    p == [Separator] || (p != [] && p[0] == Separator && IsClean(p))
  }

  /** A clean path does not end in a separator. */
  lemma CleanHasNoTrailingSeparator(p: string)
    requires IsClean(p)
    ensures p[|p| - 1] != Separator
  {
    var es := Split(p);
    SplitRoundTrip(p);
    if |es| == 1 {
      assert JoinElements(es) == es[0];
    }
    assert LastElement(p) != [];
  }

  /**
   * filepath.Join(root, name) where `root` is already clean and `name` is
   * empty or a single named element. The result is clean again.
   */
  function JoinElement(root: string, name: string): (r: string)
    requires IsClean(root)
    requires name == [] || IsNamedElement(name)
    ensures name == [] ==> r == root
    ensures name != [] ==> |r| == |root| + 1 + |name| && r[..|root|] == root && r[|root|] == Separator
    ensures Base(r) == if name == [] then Base(root) else name
    ensures IsClean(r)
  {
    if name == [] then root
    else
      CleanHasNoTrailingSeparator(root);
      LastElementAfterSeparator(root, name);
      JoinKeepsClean(root, name);
      root + [Separator] + name
  }

  lemma JoinKeepsClean(root: string, name: string)
    requires IsClean(root) && IsNamedElement(name)
    ensures IsClean(root + [Separator] + name)
  {
    SplitAtSeparator(root, name);
    SplitNoSeparator(name);
    CleanElementsAppend(Split(root), name);
  }


  lemma {:induction false} LastElementAfterSeparator(a: string, name: string)
    requires Separator !in name
    ensures LastElement(a + [Separator] + name) == name
  {
    var p := a + [Separator] + name;
    if name != [] {
      assert p[..|p| - 1] == a + [Separator] + name[..|name| - 1];
      LastElementAfterSeparator(a, name[..|name| - 1]);
      assert name == name[..|name| - 1] + [name[|name| - 1]];
    }
  }

  /** The elements of `p` between separators, in order (strings.Split(p, "/")). */
  function Split(p: string): (r: seq<string>)
    ensures |r| >= 1
    ensures forall e :: e in r ==> Separator !in e
  {
    if p == [] then [[]]
    else
      var r0 := Split(p[..|p| - 1]);
      var c := p[|p| - 1];
      if c == Separator then r0 + [[]]
      else r0[..|r0| - 1] + [r0[|r0| - 1] + [c]]
  }

  /** Joining the elements back with separators gives the path again; the last element is LastElement. */
  lemma {:induction false} SplitRoundTrip(p: string)
    ensures JoinElements(Split(p)) == p
    ensures Split(p)[|Split(p)| - 1] == LastElement(p)
  {
    if p != [] {
      var q, c := p[..|p| - 1], p[|p| - 1];
      SplitRoundTrip(q);
      assert p == q + [c];
      SplitJoinStep(q, c);
    }
  }

  /** One more character: the round trip and the last element carry over. */
  lemma SplitJoinStep(q: string, c: char)
    requires JoinElements(Split(q)) == q
    requires Split(q)[|Split(q)| - 1] == LastElement(q)
    ensures JoinElements(Split(q + [c])) == q + [c]
    ensures Split(q + [c])[|Split(q + [c])| - 1] == LastElement(q + [c])
  {
    if c == Separator {
      SplitJoinSeparator(q);
    } else {
      SplitJoinChar(q, c);
    }
  }

  lemma SplitJoinSeparator(q: string)
    requires JoinElements(Split(q)) == q
    ensures Split(q + [Separator]) == Split(q) + [[]]
    ensures JoinElements(Split(q) + [[]]) == q + [Separator]
    ensures LastElement(q + [Separator]) == []
  {
    SplitAppend(q, Separator);
    var r0 := Split(q);
    assert (r0 + [[]])[..|r0|] == r0;
  }

  lemma SplitJoinChar(q: string, c: char)
    requires JoinElements(Split(q)) == q
    requires Split(q)[|Split(q)| - 1] == LastElement(q)
    requires c != Separator
    ensures var r0 := Split(q);
      Split(q + [c]) == r0[..|r0| - 1] + [r0[|r0| - 1] + [c]] &&
      JoinElements(r0[..|r0| - 1] + [r0[|r0| - 1] + [c]]) == q + [c]
    ensures LastElement(q + [c]) == LastElement(q) + [c]
  {
    SplitAppend(q, c);
    JoinElementsLast(Split(q), c);
    assert (q + [c])[..|q|] == q;
  }

  /** strings.Join(es, "/"). */
  function JoinElements(es: seq<string>): string
    requires |es| >= 1
  {
    if |es| == 1 then es[0] else JoinElements(es[..|es| - 1]) + [Separator] + es[|es| - 1]
  }

  lemma {:induction false} JoinElementsLast(es: seq<string>, c: char)
    requires |es| >= 1
    ensures JoinElements(es[..|es| - 1] + [es[|es| - 1] + [c]]) == JoinElements(es) + [c]
  {
    var es' := es[..|es| - 1] + [es[|es| - 1] + [c]];
    if |es| > 1 {
      assert es'[..|es'| - 1] == es[..|es| - 1];
    }
  }

  /**
   * filepath.Clean of a rooted path, on its elements: empty and "." elements
   * vanish, ".." removes the element before it (and stays at the root).
   * `acc` holds the already-clean elements.
   */
  function Resolve(acc: seq<string>, es: seq<string>): (r: seq<string>)
    requires forall e :: e in acc ==> IsNamedElement(e)
    ensures forall e :: e in r ==> IsNamedElement(e)
    decreases |es|
  {
    if es == [] then acc
    else if es[0] == [] || es[0] == "." then Resolve(acc, es[1..])
    else if es[0] == ".." then Resolve(if acc == [] then [] else acc[..|acc| - 1], es[1..])
    else if Separator in es[0] then Resolve(acc, es[1..])
    else Resolve(acc + [es[0]], es[1..])
  }

  /** The elements of filepath.Join(dst, name) for an absolute `dst`. */
  function JoinedElements(dst: string, name: string): (r: seq<string>)
    ensures forall e :: e in r ==> IsNamedElement(e)
  {
    Resolve([], Split(dst) + Split(name))
  }

  /** `name`, joined onto `dst`, names an entry strictly below `dst`. */
  predicate Below(dst: string, name: string) {
    var d := Resolve([], Split(dst));
    var j := JoinedElements(dst, name);
    |d| < |j| && j[..|d|] == d
  }

  /** A suffix that starts with the only dot it holds and has no separator is the extension. */
  lemma {:induction false} ExtOfSuffix(p: string, x: string)
    requires x != [] && x[0] == '.' && '.' !in x[1..] && Separator !in x
    requires |x| <= |p| && p[|p| - |x|..] == x
    ensures Ext(p) == x
  {
    var p', c := p[..|p| - 1], p[|p| - 1];
    assert p == p' + [c];
    if |x| > 1 {
      var x' := x[..|x| - 1];
      ExtensionPrefix(x);
      assert p'[|p'| - |x'|..] == x';
      ExtOfSuffix(p', x');
      ExtAppend(p', c, x');
    }
  }

  lemma ExtensionPrefix(x: string)
    requires |x| > 1 && x[0] == '.' && '.' !in x[1..] && Separator !in x
    ensures var x' := x[..|x| - 1];
      x'[0] == '.' && '.' !in x'[1..] && Separator !in x'
    ensures x[|x| - 1] != '.' && x[|x| - 1] != Separator
    ensures x[..|x| - 1] + [x[|x| - 1]] == x
  {
    var x' := x[..|x| - 1];
    assert x'[1..] == x[1..][..|x| - 2];
    assert x[|x| - 1] == x[1..][|x| - 2];
    assert x[|x| - 1] in x;
  }

  lemma ExtAppend(q: string, c: char, e: string)
    requires c != '.' && c != Separator
    requires Ext(q) == e && e != []
    ensures Ext(q + [c]) == e + [c]
  {
    assert (q + [c])[..|q|] == q;
  }

  /** A text without separators splits into itself alone. */
  lemma {:induction false} SplitNoSeparator(p: string)
    requires Separator !in p
    ensures Split(p) == [p]
  {
    if p != [] {
      SplitNoSeparator(p[..|p| - 1]);
      assert p[..|p| - 1] + [p[|p| - 1]] == p;
    }
  }

  /** Cleaning two lists of elements one after the other is cleaning their concatenation. */
  lemma {:induction false} ResolveAppend(acc: seq<string>, es1: seq<string>, es2: seq<string>)
    requires forall e :: e in acc ==> IsNamedElement(e)
    ensures Resolve(acc, es1 + es2) == Resolve(Resolve(acc, es1), es2)
    decreases |es1|
  {
    if es1 != [] {
      assert (es1 + es2)[0] == es1[0] && (es1 + es2)[1..] == es1[1..] + es2;
      var acc' :=
        if es1[0] == [] || es1[0] == "." then acc
        else if es1[0] == ".." then (if acc == [] then [] else acc[..|acc| - 1])
        else if Separator in es1[0] then acc
        else acc + [es1[0]];
      assert forall e :: e in acc' ==> IsNamedElement(e);
      ResolveAppend(acc', es1[1..], es2);
    } else {
      assert es1 + es2 == es2;
    }
  }

  /**
   * Without ".." elements, cleaning only ever appends to what is already
   * there, and each named element makes the result longer.
   */
  lemma {:induction false} ResolveWithoutParent(acc: seq<string>, es: seq<string>)
    requires forall e :: e in acc ==> IsNamedElement(e)
    requires forall e :: e in es ==> e != ".."
    ensures |acc| <= |Resolve(acc, es)| && Resolve(acc, es)[..|acc|] == acc
    ensures (exists e :: e in es && IsNamedElement(e)) ==> |acc| < |Resolve(acc, es)|
    decreases |es|
  {
    if es != [] {
      assert forall e :: e in es[1..] ==> e in es;
      assert es[0] in es;
      var named := IsNamedElement(es[0]);
      var acc' := if named then acc + [es[0]] else acc;
      assert Resolve(acc, es) == Resolve(acc', es[1..]);
      ResolveWithoutParent(acc', es[1..]);
      var r := Resolve(acc', es[1..]);
      assert r[..|acc|] == r[..|acc'|][..|acc|];
      if !named && exists e :: e in es && IsNamedElement(e) {
        var e :| e in es && IsNamedElement(e);
        assert e != es[0] && e in es[1..];
      }
    }
  }

  /** Splitting at a separator splits each side on its own. */
  lemma {:induction false} SplitAtSeparator(a: string, b: string)
    ensures Split(a + [Separator] + b) == Split(a) + Split(b)
  {
    if b == [] {
      SplitAppend(a, Separator);
      assert a + [Separator] + b == a + [Separator];
      assert Split(b) == [[]];
    } else {
      var b', c := b[..|b| - 1], b[|b| - 1];
      var q := a + [Separator] + b';
      assert a + [Separator] + b == q + [c];
      assert b == b' + [c];
      SplitAtSeparator(a, b');
      SplitAppend(q, c);
      SplitAppend(b', c);
      var sa, s0 := Split(a), Split(b');
      ExtendLastOfConcat(sa, s0, c);
      assert sa + s0 + [[]] == sa + (s0 + [[]]);
    }
  }

  lemma ExtendLastOfConcat(sa: seq<string>, s0: seq<string>, c: char)
    requires |s0| >= 1
    ensures var r := sa + s0;
      r[..|r| - 1] + [r[|r| - 1] + [c]] == sa + (s0[..|s0| - 1] + [s0[|s0| - 1] + [c]])
  {
    var r := sa + s0;
    assert r[..|r| - 1] == sa + s0[..|s0| - 1];
  }

  /** One more character either opens a new element or extends the last one. */
  lemma SplitAppend(q: string, c: char)
    ensures var r0 := Split(q);
      Split(q + [c]) == if c == Separator then r0 + [[]] else r0[..|r0| - 1] + [r0[|r0| - 1] + [c]]
  {
    assert (q + [c])[..|q|] == q;
  }

  /**
   * filepath.Clean of a relative path, on its elements: the number of ".."
   * elements it starts with, and the named elements after them.
   */
  datatype Relative = Relative(ups: nat, rest: seq<string>)

  /** Cleans the elements `es` on top of the already clean relative path `st`. */
  function CleanRelative(st: Relative, es: seq<string>): (r: Relative)
    requires forall e :: e in st.rest ==> IsNamedElement(e)
    ensures forall e :: e in r.rest ==> IsNamedElement(e)
    ensures st.ups <= r.ups
    decreases |es|
  {
    if es == [] then st
    else if es[0] == [] || es[0] == "." || Separator in es[0] then CleanRelative(st, es[1..])
    else if es[0] == ".." then
      CleanRelative(if st.rest == [] then Relative(st.ups + 1, []) else Relative(st.ups, st.rest[..|st.rest| - 1]), es[1..])
    else CleanRelative(Relative(st.ups, st.rest + [es[0]]), es[1..])
  }

  /** The clean form of the relative path `name`. */
  function CleanName(name: string): (r: Relative)
    ensures forall e :: e in r.rest ==> IsNamedElement(e)
  {
    CleanRelative(Relative(0, []), Split(name))
  }

  /** `acc` after `k` steps up, stopping at the root. */
  function Drop(acc: seq<string>, k: nat): (r: seq<string>)
    ensures |r| == if k >= |acc| then 0 else |acc| - k
    ensures r == acc[..|r|]
    ensures forall e :: e in r ==> e in acc
  {
    if k >= |acc| then [] else acc[..|acc| - k]
  }

  /**
   * Cleaning an absolute path's elements `acc` followed by a relative path:
   * its leading ".." elements climb from `acc`, never above the root, and
   * its named elements follow.
   */
  lemma {:induction false} ResolveRelative(acc: seq<string>, st: Relative, es: seq<string>)
    requires forall e :: e in acc ==> IsNamedElement(e)
    requires forall e :: e in st.rest ==> IsNamedElement(e)
    ensures var c := CleanRelative(st, es);
      Resolve(Drop(acc, st.ups) + st.rest, es) == Drop(acc, c.ups) + c.rest
    decreases |es|
  {
    var a := Drop(acc, st.ups) + st.rest;
    if es != [] {
      if es[0] == [] || es[0] == "." || Separator in es[0] {
        ResolveRelative(acc, st, es[1..]);
      } else if es[0] == ".." {
        if st.rest == [] {
          assert a == Drop(acc, st.ups);
          DropStep(acc, st.ups);
          ResolveRelative(acc, Relative(st.ups + 1, []), es[1..]);
          assert Drop(acc, st.ups + 1) + [] == Drop(acc, st.ups + 1);
        } else {
          var rest' := st.rest[..|st.rest| - 1];
          assert a[..|a| - 1] == Drop(acc, st.ups) + rest';
          assert forall e :: e in rest' ==> e in st.rest;
          ResolveRelative(acc, Relative(st.ups, rest'), es[1..]);
        }
      } else {
        assert a + [es[0]] == Drop(acc, st.ups) + (st.rest + [es[0]]);
        ResolveRelative(acc, Relative(st.ups, st.rest + [es[0]]), es[1..]);
      }
    }
  }

  lemma DropStep(acc: seq<string>, k: nat)
    ensures var d := Drop(acc, k);
      (if d == [] then [] else d[..|d| - 1]) == Drop(acc, k + 1)
  {
  }

  /** The elements of filepath.Join(dst, name): `name`'s clean form applied to the cleaned `dst`. */
  lemma JoinedRelative(dst: string, name: string)
    ensures var d, c := Resolve([], Split(dst)), CleanName(name);
      JoinedElements(dst, name) == Drop(d, c.ups) + c.rest
  {
    var d := Resolve([], Split(dst));
    ResolveAppend([], Split(dst), Split(name));
    ResolveRelative(d, Relative(0, []), Split(name));
    assert Drop(d, 0) + [] == d;
  }

  /** `n` copies of the element `w`. */
  function Repeat(w: string, n: nat): (r: seq<string>)
    ensures |r| == n && forall e :: e in r ==> e == w
  {
    if n == 0 then [] else Repeat(w, n - 1) + [w]
  }

  /** The absolute path "/w/w/…/w" of depth `n` (the empty path for 0). */
  function Nested(w: string, n: nat): string {
    if n == 0 then [] else Nested(w, n - 1) + [Separator] + w
  }

  lemma {:induction false} ResolveNested(w: string, n: nat)
    requires IsNamedElement(w)
    ensures Resolve([], Split(Nested(w, n))) == Repeat(w, n)
  {
    if n > 0 {
      var p := Nested(w, n - 1);
      SplitAtSeparator(p, w);
      SplitNoSeparator(w);
      ResolveAppend([], Split(p), [w]);
      ResolveNested(w, n - 1);
    }
  }

  lemma {:induction false} SplitNested(w: string, n: nat)
    requires IsNamedElement(w)
    ensures Split(Nested(w, n)) == [[]] + Repeat(w, n)
  {
    if n > 0 {
      SplitNested(w, n - 1);
      SplitNestedStep(Nested(w, n - 1), w, Repeat(w, n - 1));
    }
  }

  lemma SplitNestedStep(p: string, w: string, r: seq<string>)
    requires IsNamedElement(w) && Split(p) == [[]] + r
    ensures Split(p + [Separator] + w) == [[]] + (r + [w])
  {
    SplitAtSeparator(p, w);
    SplitNoSeparator(w);
  }

  /** "/w/…/w" is a clean absolute path. */
  lemma {:induction false} NestedIsAbsClean(w: string, n: nat)
    requires IsNamedElement(w) && n >= 1
    ensures IsAbsClean(Nested(w, n))
  {
    var p := Nested(w, n);
    SplitNested(w, n);
    NestedStartsAtRoot(w, n);
    assert forall i :: 1 <= i < |Split(p)| ==> Split(p)[i] in Repeat(w, n);
  }

  lemma {:induction false} NestedStartsAtRoot(w: string, n: nat)
    requires n >= 1
    ensures Nested(w, n) != [] && Nested(w, n)[0] == Separator
  {
    if n > 1 {
      NestedStartsAtRoot(w, n - 1);
    }
  }
}
