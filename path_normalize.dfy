// Metric path normalisation: `normalizePathBytes` of pkg/rec/rec_bytes.go.
//
// The reference meaning of normalisation is `Normalization`: a path that
// is already canonical comes back as it is, unchanged; any other path is
// stripped of its leading and trailing dots, every run of dots collapses to
// its last dot, and every byte that `valid` rejects becomes `_`. A non-empty
// path made only of dots is an error. `valid` stands for the package's
// `validChar`, which is not part of this model.

module PathNormalize {
  import opened Wrappers
  import opened Bytes

  /** The bytes handed back and whether they differ from the input. */
  datatype Normalized = Normalized(path: seq<byte>, changed: bool)

  datatype NormalizeError = OnlyDots

  predicate AllDots(s: seq<byte>) {
    forall k :: 0 <= k < |s| ==> s[k] == DOT
  }

  /** Positions `k` and `k + 1` of `s` are both dots. */
  predicate DoubleDotAt(s: seq<byte>, k: nat)
    requires k + 1 < |s|
  {
    s[k] == DOT && s[k + 1] == DOT
  }

  predicate NoDoubleDots(s: seq<byte>) {
    forall k :: 0 <= k < |s| - 1 ==> !DoubleDotAt(s, k)
  }

  /** Neither starts nor ends with a dot and has no two dots in a row. */
  predicate DotsCanonical(s: seq<byte>) {
    (|s| > 0 ==> s[0] != DOT && s[|s| - 1] != DOT) && NoDoubleDots(s)
  }

  predicate AllValid(s: seq<byte>, valid: byte -> bool) {
    forall k :: 0 <= k < |s| ==> valid(s[k])
  }

  /** A path normalisation leaves alone. */
  predicate Clean(s: seq<byte>, valid: byte -> bool) {
    DotsCanonical(s) && AllValid(s, valid)
  }

  function StripLeading(s: seq<byte>): seq<byte> {
    if |s| > 0 && s[0] == DOT then StripLeading(s[1..]) else s
  }

  function StripTrailing(s: seq<byte>): seq<byte> {
    if |s| > 0 && s[|s| - 1] == DOT then StripTrailing(s[..|s| - 1]) else s
  }

  /** The path without its leading and trailing dots. */
  function Strip(s: seq<byte>): seq<byte> {
    StripTrailing(StripLeading(s))
  }

  /** Position `k` of `t` survives collapsing: a dot followed by a dot is dropped. */
  predicate Kept(t: seq<byte>, k: nat)
    requires k < |t|
  {
    !(k + 1 < |t| && DoubleDotAt(t, k))
  }

  /** The collapsed form of the first `n` positions of `t`. */
  function CollapsePrefix(t: seq<byte>, n: nat): (r: seq<byte>)
    requires n <= |t|
    ensures |r| <= n
    ensures forall x :: x in r ==> x in t
  {
    if n == 0 then []
    else CollapsePrefix(t, n - 1) + (if Kept(t, n - 1) then [t[n - 1]] else [])
  }

  /** `t` with every run of dots reduced to one dot. */
  function Collapse(t: seq<byte>): seq<byte> {
    CollapsePrefix(t, |t|)
  }

  /** `t` with every byte that `valid` rejects replaced by `_`. */
  function Sanitize(t: seq<byte>, valid: byte -> bool): (r: seq<byte>)
    ensures |r| == |t|
  {
    seq(|t|, k requires 0 <= k < |t| => if valid(t[k]) then t[k] else UNDERSCORE)
  }

  /** What normalisation of `s` yields. */
  function Normalization(s: seq<byte>, valid: byte -> bool): Result<Normalized, NormalizeError> {
    if |s| > 0 && AllDots(s) then Err(OnlyDots)
    else if Clean(s, valid) then Ok(Normalized(s, false))
    else Ok(Normalized(Sanitize(Collapse(Strip(s)), valid), true))
  }

  // ---------------------------------------------------------------------
  // The operation

  /** normalizePathBytes: find the first and last non-dot, look for a reason
      to rewrite, and either hand back (a slice of) the input or rebuild it. */
  method NormalizePathBytes(s: seq<byte>, valid: byte -> bool) returns (r: Result<Normalized, NormalizeError>)
    ensures r == Normalization(s, valid)
  {
    if |s| == 0 {
      return Ok(Normalized([], false));
    }

    var start := 0;
    while start < |s| && s[start] == DOT
      invariant 0 <= start <= |s|
      invariant forall k :: 0 <= k < start ==> s[k] == DOT
    {
      start := start + 1;
    }
    if start == |s| {
      return Err(OnlyDots);
    }

    var end := |s| - 1;  // the last byte of the path
    while end >= start && s[end] == DOT
      invariant start <= end < |s|
      invariant forall k :: end < k < |s| ==> s[k] == DOT
    {
      end := end - 1;
    }
    StripAt(s, start, end);
    ghost var t := s[start..end + 1];

    var needsNormalization := NeedsRewrite(s, start, end, valid);
    if needsNormalization {
      assert !Clean(s, valid) by {
        if start == 0 && end == |s| - 1 {
          assert t == s;
        }
      }
      var res := RewritePath(s, start, end, valid);
      return Ok(Normalized(res, true));
    }

    CleanIsFixed(t, valid);
    if start == 0 && end == |s| - 1 {
      assert t == s;
      return Ok(Normalized(s, false));
    }
    return Ok(Normalized(s[start..end + 1], true));
  }

  /** The scanning loop of normalizePathBytes over the bytes `start` to
      `end` of `s`: a rewrite is needed when two dots follow each other or
      a byte is not valid. */
  method NeedsRewrite(s: seq<byte>, start: nat, end: nat, valid: byte -> bool) returns (needs: bool)
    requires start <= end < |s| && s[start] != DOT && s[end] != DOT
    ensures needs <==> !Clean(s[start..end + 1], valid)
  {
    ghost var t := s[start..end + 1];
    var i := start;
    while i <= end
      invariant start <= i <= end + 1
      invariant forall k :: start <= k < i ==> valid(s[k]) && !(k < end && DoubleDotAt(s, k))
    {
      if s[i] == DOT {
        if s[i + 1] == DOT {  // in range: the byte at `end` is not a dot
          assert DoubleDotAt(t, i - start);
          return true;
        }
      }
      if !valid(s[i]) {
        assert !valid(t[i - start]);
        return true;
      }
      i := i + 1;
    }
    assert Clean(t, valid) by {
      forall k | 0 <= k < |t| - 1
        ensures !DoubleDotAt(t, k)
      {
        assert !DoubleDotAt(s, start + k);
      }
    }
    return false;
  }

  /** The rewriting loop of normalizePathBytes over the bytes `start` to
      `end` of `s`: drop each dot followed by a dot, replace each byte
      `valid` rejects by `_`. */
  method RewritePath(s: seq<byte>, start: nat, end: nat, valid: byte -> bool) returns (res: seq<byte>)
    requires start <= end < |s| && s[end] != DOT
    ensures res == Sanitize(Collapse(s[start..end + 1]), valid)
  {
    ghost var t := s[start..end + 1];
    res := [];
    var i := start;
    while i <= end
      invariant start <= i <= end + 1
      invariant res == Sanitize(CollapsePrefix(t, i - start), valid)
    {
      if s[i] == DOT {
        if s[i + 1] == DOT {
          assert DoubleDotAt(t, i - start);
          i := i + 1;
          continue;
        }
      }
      assert Kept(t, i - start) by {
        if i < end {
          assert !DoubleDotAt(s, i);
        }
      }
      SanitizeSnoc(CollapsePrefix(t, i - start), s[i], valid);
      if valid(s[i]) {
        res := res + [s[i]];
      } else {
        res := res + [UNDERSCORE];
      }
      i := i + 1;
    }
  }

  // ---------------------------------------------------------------------
  // Helpers about the pieces of the reference definition

  lemma {:induction false} StripLeadingAt(s: seq<byte>, start: nat)
    requires start < |s| && s[start] != DOT
    requires forall k :: 0 <= k < start ==> s[k] == DOT
    ensures StripLeading(s) == s[start..]
  {
    if start > 0 {
      StripLeadingAt(s[1..], start - 1);
      assert s[1..][start - 1..] == s[start..];
    }
  }

  lemma {:induction false} StripTrailingAt(s: seq<byte>, end: nat)
    requires end < |s| && s[end] != DOT
    requires forall k :: end < k < |s| ==> s[k] == DOT
    ensures StripTrailing(s) == s[..end + 1]
  {
    if end < |s| - 1 {
      StripTrailingAt(s[..|s| - 1], end);
      assert s[..|s| - 1][..end + 1] == s[..end + 1];
    }
  }

  lemma {:induction false} StripLeadingShape(s: seq<byte>)
    ensures var t := StripLeading(s);
      && |t| <= |s| && t == s[|s| - |t|..]
      && (t == [] <==> AllDots(s))
      && (t != [] ==> t[0] != DOT)
  {
    if |s| > 0 && s[0] == DOT {
      StripLeadingShape(s[1..]);
      assert s[1..][|s| - 1 - |StripLeading(s)|..] == s[|s| - |StripLeading(s)|..];
      if AllDots(s[1..]) {
        assert forall k :: 0 < k < |s| ==> s[k] == s[1..][k - 1];
      }
    }
  }

  lemma {:induction false} StripTrailingShape(s: seq<byte>)
    ensures var t := StripTrailing(s);
      && |t| <= |s| && t == s[..|t|]
      && (t == [] <==> AllDots(s))
      && (t != [] ==> t[|t| - 1] != DOT)
  {
    if |s| > 0 && s[|s| - 1] == DOT {
      StripTrailingShape(s[..|s| - 1]);
      assert s[..|s| - 1][..|StripTrailing(s)|] == s[..|StripTrailing(s)|];
      if AllDots(s[..|s| - 1]) {
        assert forall k :: 0 <= k < |s| - 1 ==> s[k] == s[..|s| - 1][k];
      }
    }
  }

  /** The stripped path is a piece of the input, empty exactly when the
      input is all dots, and neither starts nor ends with a dot. */
  lemma StripShape(s: seq<byte>)
    ensures var t := Strip(s);
      && |t| <= |s|
      && (forall x :: x in t ==> x in s)
      && (t == [] <==> AllDots(s))
      && (t != [] ==> t[0] != DOT && t[|t| - 1] != DOT)
  {
    var u := StripLeading(s);
    StripLeadingShape(s);
    StripTrailingShape(u);
    var t := StripTrailing(u);
    assert forall x :: x in t ==> x in u;
    assert forall x :: x in u ==> x in s;
    if AllDots(u) {
      assert u == [];
    }
  }

  /** The first and last non-dot positions delimit the stripped path. */
  lemma StripAt(s: seq<byte>, start: nat, end: nat)
    requires start <= end < |s| && s[start] != DOT && s[end] != DOT
    requires forall k :: 0 <= k < start ==> s[k] == DOT
    requires forall k :: end < k < |s| ==> s[k] == DOT
    ensures Strip(s) == s[start..end + 1]
  {
    StripLeadingAt(s, start);
    StripTrailingAt(s[start..], end - start);
    assert s[start..][..end - start + 1] == s[start..end + 1];
  }

  lemma SanitizeSnoc(x: seq<byte>, b: byte, valid: byte -> bool)
    ensures Sanitize(x + [b], valid) == Sanitize(x, valid) + [if valid(b) then b else UNDERSCORE]
  {
    assert forall k :: 0 <= k < |x| ==> (x + [b])[k] == x[k];
  }

  lemma {:induction false} CollapseIdentity(t: seq<byte>, n: nat)
    requires n <= |t| && NoDoubleDots(t)
    ensures CollapsePrefix(t, n) == t[..n]
  {
    if n > 0 {
      CollapseIdentity(t, n - 1);
      assert Kept(t, n - 1) by {
        if n < |t| {
          assert !DoubleDotAt(t, n - 1);
        }
      }
      assert t[..n] == t[..n - 1] + [t[n - 1]];
    }
  }

  /** Stripping, collapsing and sanitising all leave a clean path as it is. */
  lemma CleanIsFixed(t: seq<byte>, valid: byte -> bool)
    requires Clean(t, valid)
    ensures Strip(t) == t && Collapse(t) == t && Sanitize(t, valid) == t
  {
    CollapseIdentity(t, |t|);
    assert t[..|t|] == t;
  }

  lemma {:induction false} CollapseHead(t: seq<byte>, n: nat)
    requires 0 < n <= |t| && t[0] != DOT
    ensures CollapsePrefix(t, n) != [] && CollapsePrefix(t, n)[0] == t[0]
  {
    if n > 1 {
      CollapseHead(t, n - 1);
    }
  }

  /** Collapsing never leaves two dots in a row, and a trailing dot of the
      collapsed prefix is the last position seen, followed in `t` by a non-dot. */
  lemma {:induction false} CollapseDots(t: seq<byte>, n: nat)
    requires n <= |t|
    ensures NoDoubleDots(CollapsePrefix(t, n))
    ensures var r := CollapsePrefix(t, n);
      r != [] && r[|r| - 1] == DOT ==> 0 < n && t[n - 1] == DOT && (n < |t| ==> t[n] != DOT)
  {
    if n > 0 {
      CollapseDots(t, n - 1);
      var p := CollapsePrefix(t, n - 1);
      if Kept(t, n - 1) {
        var r := p + [t[n - 1]];
        assert CollapsePrefix(t, n) == r;
        forall k | 0 <= k < |r| - 1
          ensures !DoubleDotAt(r, k)
        {
          if k + 1 < |p| {
            assert !DoubleDotAt(p, k);
          } else {
            assert r[k] == p[|p| - 1] && r[k + 1] == t[n - 1];
          }
        }
      } else {
        assert CollapsePrefix(t, n) == p;
      }
    }
  }

  /** The collapsed form of a stripped path is dot-canonical. */
  lemma CollapseCanonical(t: seq<byte>)
    requires t != [] && t[0] != DOT && t[|t| - 1] != DOT
    ensures var c := Collapse(t); c != [] && DotsCanonical(c)
  {
    CollapseHead(t, |t|);
    CollapseDots(t, |t|);
  }

  lemma SanitizeKeepsDotShape(c: seq<byte>, valid: byte -> bool)
    requires DotsCanonical(c)
    ensures DotsCanonical(Sanitize(c, valid))
  {
    var r := Sanitize(c, valid);
    forall k | 0 <= k < |r| - 1
      ensures !DoubleDotAt(r, k)
    {
      assert !DoubleDotAt(c, k);
    }
  }

  // ---------------------------------------------------------------------
  // Properties of normalisation

  /** The two boundary cases: an empty path is handed back unchanged, and a
      non-empty path of dots only is the one error. */
  lemma NormalizationBoundaries(s: seq<byte>, valid: byte -> bool)
    ensures Normalization([], valid) == Ok(Normalized([], false))
    ensures Normalization(s, valid).Err? <==> |s| > 0 && AllDots(s)
  {
  }

  /** A successful result never starts or ends with a dot, never holds two
      dots in a row, is no longer than the input, is empty only for the empty
      input, and each of its bytes is `_` or an input byte `valid` accepts. */
  lemma NormalizedShape(s: seq<byte>, valid: byte -> bool)
    requires Normalization(s, valid).Ok?
    ensures var p := Normalization(s, valid).value.path;
      && DotsCanonical(p)
      && |p| <= |s|
      && (p == [] <==> s == [])
      && forall k :: 0 <= k < |p| ==> p[k] == UNDERSCORE || (valid(p[k]) && p[k] in s)
  {
    var p := Normalization(s, valid).value.path;
    if !Clean(s, valid) {
      var t := Strip(s);
      StripShape(s);
      CollapseCanonical(t);
      var c := Collapse(t);
      SanitizeKeepsDotShape(c, valid);
      assert p == Sanitize(c, valid);
      forall k | 0 <= k < |p|
        ensures p[k] == UNDERSCORE || (valid(p[k]) && p[k] in s)
      {
        if valid(c[k]) {
          assert c[k] in c;
        }
      }
    }
  }

  /** A successful result is itself clean once `_` counts as valid. */
  lemma NormalizedIsClean(s: seq<byte>, valid: byte -> bool)
    requires valid(UNDERSCORE)
    requires Normalization(s, valid).Ok?
    ensures Clean(Normalization(s, valid).value.path, valid)
  {
    NormalizedShape(s, valid);
  }

  /** When `changed` is false the input comes back as it is; when `_`,
      the replacement byte, counts as valid, the converse holds too. */
  lemma UnchangedIffSame(s: seq<byte>, valid: byte -> bool)
    requires Normalization(s, valid).Ok?
    ensures var n := Normalization(s, valid).value; !n.changed ==> n.path == s
    ensures var n := Normalization(s, valid).value; valid(UNDERSCORE) && n.path == s ==> !n.changed
  {
    if valid(UNDERSCORE) {
      NormalizedIsClean(s, valid);
    }
  }

  /** Normalising a normalised path gives back the same bytes; with `_`
      counted as valid it also reports no change. */
  lemma NormalizationIdempotent(s: seq<byte>, valid: byte -> bool)
    requires Normalization(s, valid).Ok?
    ensures var p := Normalization(s, valid).value.path;
      && Normalization(p, valid).Ok?
      && Normalization(p, valid).value.path == p
      && (valid(UNDERSCORE) ==> !Normalization(p, valid).value.changed)
  {
    NormalizedShape(s, valid);
    var p := Normalization(s, valid).value.path;
    if !Clean(p, valid) {
      assert Strip(p) == p;
      CollapseIdentity(p, |p|);
      assert p[..|p|] == p;
      assert Sanitize(p, valid) == p;
    }
  }
}
