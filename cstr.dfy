/** Bytes and the two string operations the resolver applies to them:
    reading a NUL-terminated string out of a string table (`u8_slice_to_str`)
    and `str::split`. A Rust `str` is modelled by its UTF-8 bytes. */
module CStr {
  import opened Wrappers

  newtype byte = b: int | 0 <= b < 256

  const NUL: byte := 0
  const COLON: byte := 58

  /** The bytes of an ASCII string literal. */
  function Ascii(s: string): (r: seq<byte>)
    requires forall i | 0 <= i < |s| :: s[i] as int < 128
    ensures |r| == |s|
  {
    seq(|s|, i requires 0 <= i < |s| => s[i] as int as byte)
  }

  predicate IsContinuation(b: byte) { 0x80 <= b <= 0xBF }

  /** The length of the well-formed UTF-8 encoding of one scalar value at the
      start of `s`, or 0 when `s` does not start with one (the table of
      section 4 of RFC 3629: no overlong forms, no surrogates, nothing above
      U+10FFFF). */
  function FirstCharLength(s: seq<byte>): (n: nat)
    requires |s| > 0
    ensures n <= |s|
  {
    var b := s[0];
    if b <= 0x7F then 1
    else if 0xC2 <= b <= 0xDF then
      if |s| >= 2 && IsContinuation(s[1]) then 2 else 0
    else if 0xE0 <= b <= 0xEF then
      var lo: byte := if b == 0xE0 then 0xA0 else 0x80;
      var hi: byte := if b == 0xED then 0x9F else 0xBF;
      if |s| >= 3 && lo <= s[1] <= hi && IsContinuation(s[2]) then 3 else 0
    else if 0xF0 <= b <= 0xF4 then
      var lo: byte := if b == 0xF0 then 0x90 else 0x80;
      var hi: byte := if b == 0xF4 then 0x8F else 0xBF;
      if |s| >= 4 && lo <= s[1] <= hi && IsContinuation(s[2]) && IsContinuation(s[3]) then 4 else 0
    else 0
  }

  /** What `std::str::from_utf8` accepts: a sequence of well-formed encodings. */
  predicate ValidUtf8(s: seq<byte>)
    decreases |s|
  {
    s == [] || (FirstCharLength(s) > 0 && ValidUtf8(s[FirstCharLength(s)..]))
  }

  /** Every ASCII byte string is valid UTF-8. */
  lemma {:induction false} AsciiIsValidUtf8(s: seq<byte>)
    requires forall i | 0 <= i < |s| :: s[i] < 0x80
    ensures ValidUtf8(s)
    decreases |s|
  {
    if s != [] {
      AsciiIsValidUtf8(s[1..]);
    }
  }

  /** `Iterator::position` for a byte: the index of the first occurrence of `b`. */
  function Position(s: seq<byte>, b: byte): (r: Option<nat>)
    ensures r.None? <==> b !in s
    ensures r.Some? ==> r.value < |s| && s[r.value] == b && b !in s[..r.value]
  {
    if s == [] then None
    else if s[0] == b then Some(0)
    else match Position(s[1..], b)
      case None => None
      case Some(i) =>
        assert s[..i + 1] == [s[0]] + s[1..][..i];
        Some(i + 1)
  }

  /** `u8_slice_to_str`: the bytes before the first NUL of `s`, provided that
      there is a NUL and that those bytes are valid UTF-8. */
  function U8SliceToStr(s: seq<byte>): (r: Option<seq<byte>>)
    ensures r.Some? ==> |r.value| < |s| && s[..|r.value|] == r.value && s[|r.value|] == NUL
    ensures r.Some? ==> NUL !in r.value && ValidUtf8(r.value)
    ensures r.None? ==> NUL !in s || exists k :: 0 <= k < |s| && s[k] == NUL && NUL !in s[..k] && !ValidUtf8(s[..k])
  {
    match Position(s, NUL)
    case None => None
    case Some(end) => if ValidUtf8(s[..end]) then Some(s[..end]) else None
  }

  /** Reading back a NUL-terminated string written into a table gives the string. */
  lemma ReadBackCString(t: seq<byte>, rest: seq<byte>)
    requires NUL !in t && ValidUtf8(t)
    ensures U8SliceToStr(t + [NUL] + rest) == Some(t)
  {
    var s := t + [NUL] + rest;
    PositionAfter(t, NUL, rest);
    assert s[..|t|] == t;
  }

  /** The first occurrence of `b` in `t + [b] + rest`, when `t` does not hold one, is at `|t|`. */
  lemma {:induction false} PositionAfter(t: seq<byte>, b: byte, rest: seq<byte>)
    requires b !in t
    ensures Position(t + [b] + rest, b) == Some(|t|)
  {
    var s := t + [b] + rest;
    if t != [] {
      assert s[1..] == t[1..] + [b] + rest;
      PositionAfter(t[1..], b, rest);
    }
  }

  /** The inverse of `Split`: the pieces joined with `sep` between them. */
  function JoinWith(pieces: seq<seq<byte>>, sep: byte): seq<byte>
  {
    if pieces == [] then []
    else if |pieces| == 1 then pieces[0]
    else pieces[0] + [sep] + JoinWith(pieces[1..], sep)
  }

  /** `str::split(sep)` on a single-byte separator: the pieces between
      separators, in order, empty pieces included; a string without a
      separator (the empty one too) is a single piece. */
  function Split(s: seq<byte>, sep: byte): (r: seq<seq<byte>>)
    ensures |r| > 0
    ensures forall i | 0 <= i < |r| :: sep !in r[i]
    ensures JoinWith(r, sep) == s
    decreases |s|
  {
    match Position(s, sep)
    case None => [s]
    case Some(i) =>
      var rest := Split(s[i + 1..], sep);
      assert s == s[..i] + [sep] + s[i + 1..];
      [s[..i]] + rest
  }

  /** Splitting pieces that were joined with a separator none of them contains gives them back. */
  lemma {:induction false} SplitJoinWith(pieces: seq<seq<byte>>, sep: byte)
    requires |pieces| > 0
    requires forall i | 0 <= i < |pieces| :: sep !in pieces[i]
    ensures Split(JoinWith(pieces, sep), sep) == pieces
  {
    if |pieces| == 1 {
      assert Position(pieces[0], sep) == None;
    } else {
      var first, rest := pieces[0], JoinWith(pieces[1..], sep);
      var s := first + [sep] + rest;
      assert JoinWith(pieces, sep) == s;
      PositionAfter(first, sep, rest);
      assert s[..|first|] == first && s[|first| + 1..] == rest;
      assert Split(s, sep) == [first] + Split(rest, sep);
      SplitJoinWith(pieces[1..], sep);
      assert pieces == [first] + pieces[1..];
    }
  }
}
