// Datapoint records of the line protocol `<path> <value> <time>\n`:
// field splitting, parsing, serialisation and copying, after
// pkg/rec/rec_bytes.go.
//
// The reference meaning of splitting is `Fields`: the maximal runs of bytes
// other than space and tab, in order. Only space (32) and tab (9) separate
// fields; in particular a line feed does not, so a trailing '\n' stays in
// the last field it touches.

module Rec {
  import opened Wrappers
  import opened Bytes
  import PathNormalize

  /** Go's `uint32`. */
  newtype uint32 = x: int | 0 <= x < 0x1_0000_0000

  /** The IEEE-754 bits of a Go `float64`; nothing here decodes them. */
  type Float64Bits = bv64

  /** A reading of the clock the caller injects (`nowF`). */
  type Instant = int

  /** RecBytes. `rawVal` and `rawTime` are the input's own bytes, kept so
      that serialisation re-emits them unchanged. */
  datatype RecBytes = RecBytes(
    path: seq<byte>,
    val: Float64Bits,
    rawVal: seq<byte>,
    time: uint32,
    rawTime: seq<byte>,
    received: Instant)

  /** isWhitespace: only space and tab. */
  predicate IsWhitespace(c: byte) {
    c == SP || c == TAB
  }

  // ---------------------------------------------------------------------
  // The reference splitting

  /** Length of the run of non-whitespace bytes that `s` starts with. */
  function WordLen(s: seq<byte>): (n: nat)
    ensures n <= |s|
    ensures |s| > 0 && !IsWhitespace(s[0]) ==> n > 0
  {
    if |s| == 0 || IsWhitespace(s[0]) then 0 else 1 + WordLen(s[1..])
  }

  /** The maximal runs of non-whitespace bytes of `s`, in order. */
  function Fields(s: seq<byte>): seq<seq<byte>>
    decreases |s|
  {
    if |s| == 0 then []
    else if IsWhitespace(s[0]) then Fields(s[1..])
    else [s[..WordLen(s)]] + Fields(s[WordLen(s)..])
  }

  /** A field: non-empty and free of space and tab. */
  predicate IsWord(w: seq<byte>) {
    |w| > 0 && forall k :: 0 <= k < |w| ==> !IsWhitespace(w[k])
  }

  // ---------------------------------------------------------------------
  // getField and recFields

  /** Half-open byte range `[start, end)` of the input. */
  datatype Span = Span(start: nat, end: nat)

  datatype FieldError = StartAtEnd | OnlyWhitespace

  predicate BlankFrom(s: seq<byte>, st: nat) {
    forall k :: st <= k < |s| ==> IsWhitespace(s[k])
  }

  /** `sp` is the first field of `s` at or after `st`: only whitespace
      before it, none inside it, and whitespace or the end right after it. */
  predicate IsFieldAt(s: seq<byte>, st: nat, sp: Span) {
    && st <= sp.start < sp.end <= |s|
    && (forall k :: st <= k < sp.start ==> IsWhitespace(s[k]))
    && (forall k :: sp.start <= k < sp.end ==> !IsWhitespace(s[k]))
    && (sp.end == |s| || IsWhitespace(s[sp.end]))
  }

  /** getField: skip whitespace from `st`, then take the run of
      non-whitespace bytes that follows. */
  method GetField(s: seq<byte>, st: nat) returns (r: Result<Span, FieldError>)
    requires st <= |s|
    ensures r.Err? <==> BlankFrom(s, st)
    ensures r.Err? ==> r.error == (if st == |s| then StartAtEnd else OnlyWhitespace)
    ensures r.Ok? ==> IsFieldAt(s, st, r.value)
  {
    if st == |s| {
      return Err(StartAtEnd);
    }

    var start := st;
    while start < |s| && IsWhitespace(s[start])
      invariant st <= start <= |s|
      invariant forall k :: st <= k < start ==> IsWhitespace(s[k])
    {
      start := start + 1;
    }
    if start == |s| {
      return Err(OnlyWhitespace);
    }

    var end := start + 1;
    while end < |s| && !IsWhitespace(s[end])
      invariant start < end <= |s|
      invariant forall k :: start <= k < end ==> !IsWhitespace(s[k])
    {
      end := end + 1;
    }
    return Ok(Span(start, end));
  }

  datatype FieldName = PathField | ValueField | TimeField

  /** The field that is missing when a line has only `n` fields. */
  function MissingField(n: nat): FieldName {
    if n == 0 then PathField else if n == 1 then ValueField else TimeField
  }

  datatype RecError =
    | Malformed(field: FieldName, cause: FieldError)
    | InvalidPath(reason: PathNormalize.NormalizeError)

  datatype FieldSpans = FieldSpans(path: Span, val: Span, time: Span)

  /** recFields: the first three fields, each searched for from the end of
      the previous one. Bytes after the third field are not looked at. */
  method RecFields(s: seq<byte>) returns (r: Result<FieldSpans, RecError>)
    ensures r.Ok? <==> |Fields(s)| >= 3
    ensures r.Err? ==> r.error.Malformed? && r.error.field == MissingField(|Fields(s)|)
    ensures r.Err? ==> (r.error.cause == StartAtEnd <==> s == [] || !IsWhitespace(s[|s| - 1]))
    ensures r.Ok? ==> var f := r.value;
      && IsFieldAt(s, 0, f.path) && IsFieldAt(s, f.path.end, f.val) && IsFieldAt(s, f.val.end, f.time)
      && s[f.path.start..f.path.end] == Fields(s)[0]
      && s[f.val.start..f.val.end] == Fields(s)[1]
      && s[f.time.start..f.time.end] == Fields(s)[2]
  {
    assert s[0..] == s;
    var p := GetField(s, 0);
    if p.Err? {
      FieldsOfBlank(s, 0);
      return Err(Malformed(PathField, p.error));
    }
    var path := p.value;
    FieldsAtSpan(s, 0, path);

    var v := GetField(s, path.end);
    if v.Err? {
      FieldsOfBlank(s, path.end);
      return Err(Malformed(ValueField, v.error));
    }
    var val := v.value;
    FieldsAtSpan(s, path.end, val);

    var t := GetField(s, val.end);
    if t.Err? {
      FieldsOfBlank(s, val.end);
      return Err(Malformed(TimeField, t.error));
    }
    var time := t.value;
    FieldsAtSpan(s, val.end, time);
    return Ok(FieldSpans(path, val, time));
  }

  // ---------------------------------------------------------------------
  // ParseRecBytes

  /** ParseRecBytes: split the line into path, value and time; optionally
      normalise the path; stamp the record with the injected clock reading.
      `valid` stands for `validChar`, which is not part of this model. */
  method ParseRecBytes(s: seq<byte>, normalize: bool, valid: byte -> bool, now: Instant)
    returns (r: Result<RecBytes, RecError>)
    ensures r.Ok? <==>
      |Fields(s)| >= 3 && (normalize ==> PathNormalize.Normalization(Fields(s)[0], valid).Ok?)
    ensures r.Err? ==> (r.error.Malformed? <==> |Fields(s)| < 3)
    ensures r.Ok? ==>
      && r.value.path == (if normalize then PathNormalize.Normalization(Fields(s)[0], valid).value.path
                          else Fields(s)[0])
      && r.value.rawVal == Fields(s)[1]
      && r.value.rawTime == Fields(s)[2]
      && r.value.val == 0 && r.value.time == 0
      && r.value.received == now
  {
    var f := RecFields(s);
    if f.Err? {
      return Err(f.error);
    }
    var spans := f.value;

    var path: seq<byte>;
    if normalize {
      var n := PathNormalize.NormalizePathBytes(s[spans.path.start..spans.path.end], valid);
      if n.Err? {
        return Err(InvalidPath(n.error));
      }
      path := n.value.path;
    } else {
      path := s[spans.path.start..spans.path.end];
    }

    return Ok(RecBytes(
      path := path,
      val := 0,
      rawVal := s[spans.val.start..spans.val.end],
      time := 0,
      rawTime := s[spans.time.start..spans.time.end],
      received := now));
  }

  // ---------------------------------------------------------------------
  // Serialize

  /** The line-protocol form: path, value and time joined by single spaces
      and ended by a line feed. */
  function Line(path: seq<byte>, rawVal: seq<byte>, rawTime: seq<byte>): seq<byte> {
    path + [SP] + rawVal + [SP] + rawTime + [LF]
  }

  /** Serialize: append the parts to a buffer sized for all of them. */
  method Serialize(r: RecBytes) returns (line: seq<byte>)
    ensures line == Line(r.path, r.rawVal, r.rawTime)
    ensures |line| == |r.path| + |r.rawVal| + |r.rawTime| + 3
  {
    var res: seq<byte> := [];
    res := res + r.path;
    res := res + [SP];
    res := res + r.rawVal;
    res := res + [SP];
    res := res + r.rawTime;
    res := res + [LF];
    return res;
  }

  // ---------------------------------------------------------------------
  // Copy

  /** Go's built-in `copy(dst, src)`: the first min(len(dst), len(src))
      bytes of `dst` are overwritten; `dst` keeps its length. */
  function CopyBytes(dst: seq<byte>, src: seq<byte>): (d: seq<byte>)
    ensures |d| == |dst|
    ensures forall k :: 0 <= k < |d| ==> d[k] == (if k < |src| then src[k] else dst[k])
  {
    if |src| < |dst| then src + dst[|src|..] else src[..|dst|]
  }

  /** Copy as written: the byte fields of the new record are nil slices, so
      the three `copy` calls move no bytes at all. */
  function Copy(r: RecBytes): (c: RecBytes)
    ensures c.val == r.val && c.time == r.time && c.received == r.received
    ensures c.path == [] && c.rawVal == [] && c.rawTime == []
  {
    RecBytes(
      path := CopyBytes([], r.path),
      val := r.val,
      rawVal := CopyBytes([], r.rawVal),
      time := r.time,
      rawTime := CopyBytes([], r.rawTime),
      received := r.received)
  }

  /** A zeroed buffer of `n` bytes, as `make([]byte, n)` gives. */
  function Zeroed(n: nat): (z: seq<byte>)
    ensures |z| == n
  {
    seq(n, _ => 0)
  }

  /** The deep copy Copy is meant to be: each destination buffer is
      allocated with the source's length before copying into it. */
  function DeepCopy(r: RecBytes): (c: RecBytes)
    ensures c == r
  {
    RecBytes(
      path := CopyBytes(Zeroed(|r.path|), r.path),
      val := r.val,
      rawVal := CopyBytes(Zeroed(|r.rawVal|), r.rawVal),
      time := r.time,
      rawTime := CopyBytes(Zeroed(|r.rawTime|), r.rawTime),
      received := r.received)
  }

  /** Copy loses the path of every record that has one. */
  lemma CopyLosesPath(r: RecBytes)
    requires r.path != []
    ensures Copy(r) != r && Copy(r).path != r.path
  {
  }

  // ---------------------------------------------------------------------
  // Lemmas connecting getField to the reference splitting

  lemma {:induction false} FieldsAfterBlank(s: seq<byte>, st: nat, a: nat)
    requires st <= a <= |s|
    requires forall k :: st <= k < a ==> IsWhitespace(s[k])
    ensures Fields(s[st..]) == Fields(s[a..])
    decreases a - st
  {
    if st < a {
      assert s[st..][1..] == s[st + 1..];
      FieldsAfterBlank(s, st + 1, a);
    }
  }

  lemma {:induction false} WordLenAt(s: seq<byte>, a: nat, b: nat)
    requires a <= b <= |s|
    requires forall k :: a <= k < b ==> !IsWhitespace(s[k])
    requires b == |s| || IsWhitespace(s[b])
    ensures WordLen(s[a..]) == b - a
    decreases b - a
  {
    if a < b {
      assert s[a..][1..] == s[a + 1..];
      WordLenAt(s, a + 1, b);
    }
  }

  /** The field getField finds is the first reference field. */
  lemma FieldsAtSpan(s: seq<byte>, st: nat, sp: Span)
    requires IsFieldAt(s, st, sp)
    ensures |Fields(s[st..])| > 0
    ensures Fields(s[st..]) == [s[sp.start..sp.end]] + Fields(s[sp.end..])
  {
    FieldsAfterBlank(s, st, sp.start);
    WordLenAt(s, sp.start, sp.end);
    var u := s[sp.start..];
    assert u[..sp.end - sp.start] == s[sp.start..sp.end];
    assert u[sp.end - sp.start..] == s[sp.end..];
  }

  /** Nothing but whitespace left: no more fields. */
  lemma FieldsOfBlank(s: seq<byte>, st: nat)
    requires st <= |s| && BlankFrom(s, st)
    ensures Fields(s[st..]) == []
  {
    FieldsAfterBlank(s, st, |s|);
  }

  // ---------------------------------------------------------------------
  // Properties of the reference splitting

  lemma {:induction false} WordLenWord(s: seq<byte>)
    ensures forall k :: 0 <= k < WordLen(s) ==> !IsWhitespace(s[k])
    ensures WordLen(s) == |s| || IsWhitespace(s[WordLen(s)])
  {
    if |s| > 0 && !IsWhitespace(s[0]) {
      WordLenWord(s[1..]);
    }
  }

  /** Every field is non-empty and holds no space or tab. */
  lemma {:induction false} FieldsAreWords(s: seq<byte>)
    ensures forall i :: 0 <= i < |Fields(s)| ==> IsWord(Fields(s)[i])
    decreases |s|
  {
    if |s| > 0 {
      if IsWhitespace(s[0]) {
        FieldsAreWords(s[1..]);
      } else {
        WordLenWord(s);
        FieldsAreWords(s[WordLen(s)..]);
      }
    }
  }

  /** A word followed by whitespace or nothing is the first field. */
  lemma FieldsOfWordThen(w: seq<byte>, rest: seq<byte>)
    requires IsWord(w)
    requires rest == [] || IsWhitespace(rest[0])
    ensures Fields(w + rest) == [w] + Fields(rest)
  {
    var s := w + rest;
    WordLenAt(s, 0, |w|);
    assert s[0..] == s;
    assert s[..|w|] == w && s[|w|..] == rest;
  }

  /** A byte between two fields keeps them apart exactly when it is a
      space or a tab; any other byte, a line feed included, joins them
      into one field. */
  lemma SeparatorBytes(a: seq<byte>, c: byte, b: seq<byte>)
    requires IsWord(a) && IsWord(b)
    ensures c == SP || c == TAB ==> Fields(a + [c] + b) == [a, b]
    ensures c != SP && c != TAB ==> Fields(a + [c] + b) == [a + [c] + b]
  {
    var s := a + [c] + b;
    if IsWhitespace(c) {
      assert s == a + ([c] + b);
      FieldsOfWordThen(a, [c] + b);
      assert ([c] + b)[1..] == b;
      FieldsOfWordThen(b, []);
      assert b + [] == b;
    } else {
      assert IsWord(s) by {
        forall k | 0 <= k < |s| ensures !IsWhitespace(s[k]) {
          if k < |a| { assert s[k] == a[k]; }
          else if k > |a| { assert s[k] == b[k - |a| - 1]; }
        }
      }
      FieldsOfWordThen(s, []);
      assert s + [] == s;
    }
  }

  /** Parsing a serialised line gives back path and value, and the time
      followed by the line feed that serialisation appended. */
  lemma FieldsOfLine(path: seq<byte>, rawVal: seq<byte>, rawTime: seq<byte>)
    requires IsWord(path) && IsWord(rawVal) && IsWord(rawTime)
    ensures Fields(Line(path, rawVal, rawTime)) == [path, rawVal, rawTime + [LF]]
  {
    var x3 := rawTime + [LF];
    var x1 := rawVal + ([SP] + x3);
    LineShape(path, rawVal, rawTime);
    FieldsOfTimeLine(rawTime);
    FieldsAfterSpace(x3);
    FieldsOfWordThen(rawVal, [SP] + x3);
    FieldsAfterSpace(x1);
    FieldsOfWordThen(path, [SP] + x1);
  }

  /** Serialising the three fields of a parsed line and splitting the result
      again gives those fields back, the time now ending in a line feed. */
  lemma ParsedLineReparses(s: seq<byte>)
    requires |Fields(s)| >= 3
    ensures var f := Fields(s);
      Fields(Line(f[0], f[1], f[2])) == [f[0], f[1], f[2] + [LF]]
  {
    FieldsAreWords(s);
    FieldsOfLine(Fields(s)[0], Fields(s)[1], Fields(s)[2]);
  }

  lemma LineShape(path: seq<byte>, rawVal: seq<byte>, rawTime: seq<byte>)
    ensures Line(path, rawVal, rawTime) == path + ([SP] + (rawVal + ([SP] + (rawTime + [LF]))))
  {
  }

  /** The time field with its line feed is one field. */
  lemma FieldsOfTimeLine(rawTime: seq<byte>)
    requires IsWord(rawTime)
    ensures IsWord(rawTime + [LF]) && Fields(rawTime + [LF]) == [rawTime + [LF]]
  {
    var x := rawTime + [LF];
    assert IsWord(x) by {
      assert forall k :: 0 <= k < |rawTime| ==> x[k] == rawTime[k];
    }
    FieldsOfWordThen(x, []);
    assert x + [] == x;
  }

  lemma FieldsAfterSpace(x: seq<byte>)
    ensures Fields([SP] + x) == Fields(x)
  {
    assert ([SP] + x)[1..] == x;
  }

  lemma {:induction false} WordLenAppend(a: seq<byte>, b: seq<byte>)
    ensures WordLen(a + b) == if WordLen(a) < |a| then WordLen(a) else |a| + WordLen(b)
  {
    if |a| > 0 && !IsWhitespace(a[0]) {
      assert (a + b)[1..] == a[1..] + b;
      WordLenAppend(a[1..], b);
    } else if |a| == 0 {
      assert a + b == b;
    }
  }

  /** A non-separator byte appended right after the last field joins that
      field: the bytes before it split exactly as before. */
  lemma {:induction false} FieldsSnoc(a: seq<byte>, c: byte)
    requires !IsWhitespace(c)
    requires a != [] && !IsWhitespace(a[|a| - 1])
    ensures var f := Fields(a);
      |f| > 0 && Fields(a + [c]) == f[..|f| - 1] + [f[|f| - 1] + [c]]
    decreases |a|
  {
    var s := a + [c];
    if IsWhitespace(a[0]) {
      assert s[1..] == a[1..] + [c];
      FieldsSnoc(a[1..], c);
      assert Fields(s) == Fields(a[1..] + [c]);
      assert Fields(a) == Fields(a[1..]);
    } else {
      var w := WordLen(a);
      WordLenWord(a);
      if w == |a| {
        FieldsSnocWhole(a, c);
      } else {
        FieldsSnoc(a[w..], c);
        FieldsSnocSplit(a, c);
        var f' := Fields(a[w..]);
        var f := Fields(a);
        assert f == [a[..w]] + f';
        assert f[..|f| - 1] == [a[..w]] + f'[..|f'| - 1];
      }
    }
  }

  lemma FieldsSnocWhole(a: seq<byte>, c: byte)
    requires !IsWhitespace(c) && IsWord(a)
    ensures Fields(a) == [a] && Fields(a + [c]) == [a + [c]]
  {
    var s := a + [c];
    assert IsWord(s) by {
      assert forall k :: 0 <= k < |a| ==> s[k] == a[k];
    }
    FieldsOfWordThen(a, []);
    FieldsOfWordThen(s, []);
    assert a + [] == a && s + [] == s;
  }

  lemma FieldsSnocSplit(a: seq<byte>, c: byte)
    requires a != [] && !IsWhitespace(a[0]) && WordLen(a) < |a|
    ensures var w := WordLen(a);
      && Fields(a) == [a[..w]] + Fields(a[w..])
      && Fields(a + [c]) == [a[..w]] + Fields(a[w..] + [c])
  {
    var w := WordLen(a);
    WordLenAppend(a, [c]);
    SnocSlices(a, c, w);
  }

  lemma SnocSlices(a: seq<byte>, c: byte, w: nat)
    requires w <= |a|
    ensures (a + [c])[..w] == a[..w] && (a + [c])[w..] == a[w..] + [c]
  {
  }

  /** A line feed is not a separator: on a line whose time field ends the
      line, a trailing '\n' becomes the last byte of the time field. */
  lemma TrailingNewlineStaysInTime(a: seq<byte>)
    requires |Fields(a)| == 3 && !IsWhitespace(a[|a| - 1])
    ensures var f := Fields(a + [LF]);
      |f| == 3 && f[0] == Fields(a)[0] && f[1] == Fields(a)[1] && f[2] == Fields(a)[2] + [LF]
  {
    FieldsSnoc(a, LF);
  }
}
