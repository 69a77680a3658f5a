/** The few Python `str` methods the crawler relies on. Strings are sequences
    of Unicode scalar values; Python's `str` is a sequence of code points. */
module PyStrings {

  /** The argument of `rstrip('/simple/')` in `_add_base_url`. Python reads it
      as a set of characters, not as a suffix. */
  const SimpleSuffix: string := "/simple/"

  /** `base` is what `s.rstrip(chars)` must return: a prefix of `s`, every
      character cut off occurs in `chars`, and the cut stopped at a character
      that does not (or at the start of `s`). */
  ghost predicate IsRStripOf(base: string, s: string, chars: string) {
    && |base| <= |s|
    && base == s[..|base|]
    && (forall k :: |base| <= k < |s| ==> s[k] in chars)
    && (base == [] || base[|base| - 1] !in chars)
  }

  /** Python `s.rstrip(chars)`: drop trailing characters while they occur in `chars`. */
  function RStrip(s: string, chars: string): (r: string)
    ensures IsRStripOf(r, s, chars)
    decreases |s|
  {
    if s != [] && s[|s| - 1] in chars then RStrip(s[..|s| - 1], chars) else s
  }

  /** The characterisation is exact: only one prefix of `s` qualifies. */
  lemma RStripUnique(s: string, chars: string, base: string)
    requires IsRStripOf(base, s, chars)
    ensures RStrip(s, chars) == base
  {
  }

  /** Stripping twice strips nothing more. */
  lemma RStripIdempotent(s: string, chars: string)
    ensures RStrip(RStrip(s, chars), chars) == RStrip(s, chars)
  {
    var r := RStrip(s, chars);
    RStripUnique(r, chars, r);
  }

  /** Characters from the set appended after `p` are stripped along with
      whatever of `p` itself ends in the set. */
  lemma RStripAppend(p: string, t: string, chars: string)
    requires forall k :: 0 <= k < |t| ==> t[k] in chars
    ensures RStrip(p + t, chars) == RStrip(p, chars)
  {
    var r := RStrip(p, chars);
    assert (p + t)[..|r|] == r;
    forall k | |r| <= k < |p + t|
      ensures (p + t)[k] in chars
    {
      if k >= |p| {
        assert (p + t)[k] == t[k - |p|];
      }
    }
    RStripUnique(p + t, chars, r);
  }

  /** Python `s.endswith(suffix)`: `s` is some string followed by `suffix`. */
  predicate EndsWith(s: string, suffix: string): (b: bool)
    ensures b <==> exists p :: s == p + suffix
  {
    var n := |s| - |suffix|;
    if |suffix| <= |s| && s[n..] == suffix then
      assert s == s[..n] + suffix;
      true
    else
      assert forall p :: s == p + suffix ==> s[|p|..] == suffix;
      false
  }

  /** A suffix free of `/` ends `p + name` exactly when it ends `name`, if `p`
      is empty or ends in `/`. */
  lemma {:induction false} EndsWithAfterSlash(p: string, name: string, suffix: string)
    requires p == [] || p[|p| - 1] == '/'
    requires '/' !in suffix
    ensures EndsWith(p + name, suffix) <==> EndsWith(name, suffix)
  {
    var s := p + name;
    if |suffix| <= |name| {
      assert s[|s| - |suffix|..] == name[|name| - |suffix|..];
    } else if |suffix| <= |s| {
      // the last |suffix| characters of `s` reach back over the `/` ending `p`
      var t := s[|s| - |suffix|..];
      assert t[|suffix| - |name| - 1] == '/';
      assert '/' in t;
    }
  }

  /** Python 3.9 `s.removesuffix(suffix)`: removes the suffix once, if present. */
  function RemoveSuffix(s: string, suffix: string): (r: string)
    ensures EndsWith(s, suffix) ==> r + suffix == s
    ensures !EndsWith(s, suffix) ==> r == s
  {
    if EndsWith(s, suffix) then s[..|s| - |suffix|] else s
  }

  lemma RemoveSuffixOfAppend(host: string, suffix: string)
    ensures EndsWith(host + suffix, suffix)
    ensures RemoveSuffix(host + suffix, suffix) == host
  {
    var s := host + suffix;
    assert s[|s| - |suffix|..] == suffix;
    assert s[..|s| - |suffix|] == host;
  }
}

/** Python's ordering of `str` values: at the first position where two
    strings differ the smaller code point comes first, and if one string runs
    out before they differ it comes first. Dafny's own `<` on sequences is the
    proper-prefix relation, so the order is spelled out here. */
module StrOrder {

  /** The length of the longest common prefix of `a` and `b`. */
  function CommonPrefix(a: string, b: string): (k: nat)
    ensures k <= |a| && k <= |b|
    decreases |a|
  {
    if a == [] || b == [] || a[0] != b[0] then 0 else CommonPrefix(a[1..], b[1..]) + 1
  }

  /** `a` and `b` agree before `CommonPrefix(a, b)` and not at it. */
  lemma {:induction false} CommonPrefixAgrees(a: string, b: string)
    ensures var k := CommonPrefix(a, b);
      a[..k] == b[..k] && (k == |a| || k == |b| || a[k] != b[k])
    decreases |a|
  {
    if a != [] && b != [] && a[0] == b[0] {
      CommonPrefixAgrees(a[1..], b[1..]);
      var k' := CommonPrefix(a[1..], b[1..]);
      assert a[..k' + 1] == [a[0]] + a[1..][..k'];
      assert b[..k' + 1] == [b[0]] + b[1..][..k'];
    }
  }

  /** Python `a <= b` on `str`. Every prefix of `b`, `b` itself included, is
      at most `b`; `LeIsCodePointOrder` gives the full meaning. */
  predicate Le(a: string, b: string): (r: bool)
    ensures |a| <= |b| && b[..|a|] == a ==> r
  {
    var k := CommonPrefix(a, b);
    if |a| <= |b| && b[..|a|] == a then
      CommonPrefixUnique(a, b, |a|);
      true
    else
      k == |a| || (k < |b| && a[k] < b[k])
  }

  /** `Le` is Python's order on `str`: `a` is a prefix of `b`, or at the first
      position where they differ the code point of `a` is the smaller. */
  lemma LeIsCodePointOrder(a: string, b: string)
    ensures Le(a, b) <==>
      || (|a| <= |b| && b[..|a|] == a)
      || exists k :: 0 <= k < |a| && k < |b| && a[..k] == b[..k] && a[k] < b[k]
  {
    var k := CommonPrefix(a, b);
    CommonPrefixAgrees(a, b);
    if |a| <= |b| && b[..|a|] == a {
      CommonPrefixUnique(a, b, |a|);
    }
    forall m | 0 <= m < |a| && m < |b| && a[..m] == b[..m] && a[m] < b[m]
      ensures Le(a, b)
    {
      CommonPrefixUnique(a, b, m);
    }
  }

  /** The common prefix is fixed by its three defining facts. */
  lemma CommonPrefixUnique(a: string, b: string, k: nat)
    requires k <= |a| && k <= |b| && a[..k] == b[..k]
    requires k == |a| || k == |b| || a[k] != b[k]
    ensures CommonPrefix(a, b) == k
  {
    CommonPrefixAgrees(a, b);
  }

  lemma CommonPrefixSymmetric(a: string, b: string)
    ensures CommonPrefix(a, b) == CommonPrefix(b, a)
  {
    CommonPrefixAgrees(a, b);
    CommonPrefixUnique(b, a, CommonPrefix(a, b));
  }

  lemma LeReflexive(a: string)
    ensures Le(a, a)
  {
    CommonPrefixUnique(a, a, |a|);
  }

  lemma LeAntisymmetric(a: string, b: string)
    requires Le(a, b) && Le(b, a)
    ensures a == b
  {
    CommonPrefixSymmetric(a, b);
    CommonPrefixAgrees(a, b);
    var k := CommonPrefix(a, b);
    assert a == a[..k] && b == b[..k];
  }

  lemma LeTotal(a: string, b: string)
    ensures Le(a, b) || Le(b, a)
  {
    CommonPrefixSymmetric(a, b);
    CommonPrefixAgrees(a, b);
  }

  lemma LeTransitive(a: string, b: string, c: string)
    requires Le(a, b) && Le(b, c)
    ensures Le(a, c)
  {
    CommonPrefixAgrees(a, b);
    CommonPrefixAgrees(b, c);
    var p, q := CommonPrefix(a, b), CommonPrefix(b, c);
    var m := if p < q then p else q;
    assert a[..m] == a[..p][..m] == b[..p][..m] == b[..m];
    assert b[..m] == b[..q][..m] == c[..q][..m] == c[..m];
    if m < |a| && m < |c| && m < |b| {
      assert p == m ==> a[m] < b[m];
      assert q == m ==> b[m] < c[m];
      assert p > m ==> a[m] == a[..p][m] == b[..p][m] == b[m];
      assert q > m ==> b[m] == b[..q][m] == c[..q][m] == c[m];
      CommonPrefixUnique(a, c, m);
    } else if m == |a| {
      CommonPrefixUnique(a, c, m);
    } else {
      // m == |b| or m == |c|: then b ran out, so p == |a| forces m == |a|
      assert false;
    }
  }

  /** Version labels compare as text: "1.10" sorts before "1.9". */
  lemma TextualNotSemantic()
    ensures Le("pkg-1.10.tar.gz", "pkg-1.9.tar.gz")
    ensures !Le("pkg-1.9.tar.gz", "pkg-1.10.tar.gz")
  {
    var a, b := "pkg-1.10.tar.gz", "pkg-1.9.tar.gz";
    assert a[..6] == b[..6] == "pkg-1.";
    LeAtFirstDifference(a, b, 6);
    LeAtFirstDifference(b, a, 6);
  }

  /** Where two strings first differ, that position alone decides `Le`. */
  lemma LeAtFirstDifference(a: string, b: string, k: nat)
    requires k < |a| && k < |b| && a[..k] == b[..k] && a[k] != b[k]
    ensures Le(a, b) <==> a[k] < b[k]
  {
    CommonPrefixUnique(a, b, k);
  }
}
