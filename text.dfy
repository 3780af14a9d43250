/** The JavaScript string built-ins the core relies on: `split` and `join` with a
    one-character separator, and `encodeURI`. */
module Text {
  import opened Types

  /** The helper `Split` cuts at: the position of the first `c` in `s`, or `|s|` when `c`
      does not occur. It is not JavaScript's `indexOf`, which the core never calls. */
  function IndexOf(s: string, c: char): (k: nat)
    ensures k <= |s|
    ensures k < |s| ==> s[k] == c
    ensures forall j :: 0 <= j < k ==> s[j] != c
    decreases |s|
  {
    if s == [] then 0 else if s[0] == c then 0 else 1 + IndexOf(s[1..], c)
  }

  /** `s.split(sep)`. */
  function Split(s: string, sep: char): (parts: seq<string>)
    ensures |parts| >= 1
    decreases |s|
  {
    var k := IndexOf(s, sep);
    if k == |s| then [s] else [s[..k]] + Split(s[k + 1..], sep)
  }

  /** `parts.join(sep)`. */
  function Join(parts: seq<string>, sep: char): string
    decreases |parts|
  {
    if |parts| == 0 then "" else if |parts| == 1 then parts[0] else parts[0] + [sep] + Join(parts[1..], sep)
  }

  predicate NoSeparator(parts: seq<string>, sep: char) {
    forall i :: 0 <= i < |parts| ==> sep !in parts[i]
  }

  /** The first separator of `a + [sep] + b` is the one after `a`, when `a` has none. */
  lemma IndexOfAfter(a: string, sep: char, b: string)
    requires sep !in a
    ensures IndexOf(a + [sep] + b, sep) == |a|
  {
    var s := a + [sep] + b;
    var k := IndexOf(s, sep);
    assert s[|a|] == sep;
  }

  /** Splitting undoes joining, when no part holds the separator. */
  lemma {:induction false} SplitJoin(parts: seq<string>, sep: char)
    requires |parts| >= 1 && NoSeparator(parts, sep)
    ensures Split(Join(parts, sep), sep) == parts
    decreases |parts|
  {
    if |parts| > 1 {
      var rest := Join(parts[1..], sep);
      var s := parts[0] + [sep] + rest;
      IndexOfAfter(parts[0], sep, rest);
      assert s[..|parts[0]|] == parts[0];
      assert s[|parts[0]| + 1..] == rest;
      SplitJoin(parts[1..], sep);
      assert parts == [parts[0]] + parts[1..];
    } else {
      assert IndexOf(parts[0], sep) == |parts[0]|;
    }
  }

  /** Joining undoes splitting: the separators come back where they were. */
  lemma {:induction false} JoinSplit(s: string, sep: char)
    ensures Join(Split(s, sep), sep) == s
    decreases |s|
  {
    var k := IndexOf(s, sep);
    if k < |s| {
      var rest := s[k + 1..];
      var parts := Split(s, sep);
      assert parts == [s[..k]] + Split(rest, sep);
      assert parts[1..] == Split(rest, sep);
      assert Join(parts, sep) == s[..k] + [sep] + Join(Split(rest, sep), sep);
      JoinSplit(rest, sep);
      assert s == s[..k] + [sep] + rest;
    }
  }

  /** Every `from` in `s` replaced by `to`, position by position. */
  function ReplaceAll(s: string, from: char, to: char): (r: string)
  {
    seq(|s|, k requires 0 <= k < |s| => if s[k] == from then to else s[k])
  }

  /** Replacing around the first `from`: the untouched prefix, `to`, then the rest replaced. */
  lemma ReplaceAllAtFirst(s: string, k: nat, from: char, to: char)
    requires k < |s| && s[k] == from && forall j :: 0 <= j < k ==> s[j] != from
    ensures ReplaceAll(s, from, to) == s[..k] + [to] + ReplaceAll(s[k + 1..], from, to)
  {
    var lhs, rhs := ReplaceAll(s, from, to), s[..k] + [to] + ReplaceAll(s[k + 1..], from, to);
    assert |lhs| == |rhs|;
    forall i | 0 <= i < |lhs| ensures lhs[i] == rhs[i] {
      if i > k {
        assert rhs[i] == ReplaceAll(s[k + 1..], from, to)[i - k - 1];
      }
    }
  }

  /** `s.split(sep).join(to)` replaces every separator by `to` and touches nothing else. */
  lemma {:induction false} SplitJoinReplaces(s: string, sep: char, to: char)
    ensures Join(Split(s, sep), to) == ReplaceAll(s, sep, to)
    decreases |s|
  {
    var k := IndexOf(s, sep);
    if k == |s| {
      assert ReplaceAll(s, sep, to) == s;
    } else {
      var rest := s[k + 1..];
      var parts := Split(s, sep);
      assert parts == [s[..k]] + Split(rest, sep);
      assert parts[1..] == Split(rest, sep);
      assert Join(parts, to) == s[..k] + [to] + Join(Split(rest, sep), to);
      SplitJoinReplaces(rest, sep, to);
      ReplaceAllAtFirst(s, k, sep, to);
    }
  }

  /** The characters `encodeURI` leaves as they are. */
  predicate UriUnescaped(c: char) {
    ('a' <= c <= 'z') || ('A' <= c <= 'Z') || ('0' <= c <= '9') || c in "-_.!~*'();/?:@&=+$,#"
  }

  /** The value of a hexadecimal digit of either case, or `None` for any other character. */
  function HexValue(c: char): (v: Option<nat>)
    ensures v.Some? <==> ('0' <= c <= '9' || 'A' <= c <= 'F' || 'a' <= c <= 'f')
    ensures v.Some? ==> v.value < 16
  {
    if '0' <= c <= '9' then Some(c as int - 48)
    else if 'A' <= c <= 'F' then Some(c as int - 55)
    else if 'a' <= c <= 'f' then Some(c as int - 87)
    else None
  }

  /** The upper-case hexadecimal digit for `d`: reading it back gives `d`. */
  function HexDigit(d: nat): (c: char)
    requires d < 16
    ensures '0' <= c <= '9' || 'A' <= c <= 'F'
    ensures HexValue(c) == Some(d)
    ensures UriUnescaped(c)
  {
    if d < 10 then (48 + d) as char else (55 + d) as char
  }

  /** The UTF-8 encoding of one Unicode scalar value. */
  function Utf8(c: char): (bytes: seq<nat>)
    ensures 1 <= |bytes| <= 4
    ensures forall i :: 0 <= i < |bytes| ==> bytes[i] < 256
  {
    var cp := c as int;
    if cp < 0x80 then [cp]
    else if cp < 0x800 then [0xC0 + cp / 64, 0x80 + cp % 64]
    else if cp < 0x1_0000 then [0xE0 + cp / 4096, 0x80 + (cp / 64) % 64, 0x80 + cp % 64]
    else [0xF0 + cp / 262144, 0x80 + (cp / 4096) % 64, 0x80 + (cp / 64) % 64, 0x80 + cp % 64]
  }

  /** The code point a well-formed UTF-8 sequence of one to four bytes stands for: the lead
      byte's payload bits, then six bits from each continuation byte. */
  function Utf8Decode(bytes: seq<nat>): int {
    if |bytes| == 1 then bytes[0]
    else if |bytes| == 2 then (bytes[0] as int - 0xC0) * 64 + (bytes[1] as int - 0x80)
    else if |bytes| == 3 then (bytes[0] as int - 0xE0) * 4096 + (bytes[1] as int - 0x80) * 64 + (bytes[2] as int - 0x80)
    else if |bytes| == 4 then (bytes[0] as int - 0xF0) * 262144 + (bytes[1] as int - 0x80) * 4096 + (bytes[2] as int - 0x80) * 64 + (bytes[3] as int - 0x80)
    else -1
  }

  /** The byte layout of UTF-8: the lead byte announces the length (`0xxxxxxx`, `110xxxxx`,
      `1110xxxx`, `11110xxx`) and every further byte is a continuation byte `10xxxxxx`. */
  predicate Utf8Layout(bytes: seq<nat>) {
    1 <= |bytes| <= 4 &&
    (|bytes| == 1 ==> bytes[0] < 0x80) &&
    (|bytes| == 2 ==> 0xC0 <= bytes[0] < 0xE0) &&
    (|bytes| == 3 ==> 0xE0 <= bytes[0] < 0xF0) &&
    (|bytes| == 4 ==> 0xF0 <= bytes[0] < 0xF8) &&
    forall i :: 1 <= i < |bytes| ==> 0x80 <= bytes[i] < 0xC0
  }

  /** `Utf8` is the UTF-8 encoding: it has the UTF-8 byte layout, uses the shortest form for
      the code point, and decodes back to the code point. */
  lemma Utf8RoundTrip(c: char)
    ensures Utf8Layout(Utf8(c))
    ensures Utf8Decode(Utf8(c)) == c as int
    ensures |Utf8(c)| == if c as int < 0x80 then 1 else if c as int < 0x800 then 2 else if c as int < 0x1_0000 then 3 else 4
  {
    var cp := c as int;
    if cp < 0x80 {
    } else if cp < 0x800 {
      Utf8TwoBytes(cp);
    } else if cp < 0x1_0000 {
      Utf8ThreeBytes(cp);
    } else {
      Utf8FourBytes(cp);
    }
  }

  lemma Utf8TwoBytes(cp: nat)
    requires 0x80 <= cp < 0x800
    ensures Utf8Layout([0xC0 + cp / 64, 0x80 + cp % 64])
    ensures Utf8Decode([0xC0 + cp / 64, 0x80 + cp % 64]) == cp
  {
    assert cp == (cp / 64) * 64 + cp % 64;
  }

  lemma Utf8ThreeBytes(cp: nat)
    requires 0x800 <= cp < 0x1_0000
    ensures Utf8Layout([0xE0 + cp / 4096, 0x80 + (cp / 64) % 64, 0x80 + cp % 64])
    ensures Utf8Decode([0xE0 + cp / 4096, 0x80 + (cp / 64) % 64, 0x80 + cp % 64]) == cp
  {
    assert cp / 64 == (cp / 4096) * 64 + (cp / 64) % 64;
    assert cp == (cp / 64) * 64 + cp % 64;
  }

  lemma Utf8FourBytes(cp: nat)
    requires 0x1_0000 <= cp < 0x11_0000
    ensures Utf8Layout([0xF0 + cp / 262144, 0x80 + (cp / 4096) % 64, 0x80 + (cp / 64) % 64, 0x80 + cp % 64])
    ensures Utf8Decode([0xF0 + cp / 262144, 0x80 + (cp / 4096) % 64, 0x80 + (cp / 64) % 64, 0x80 + cp % 64]) == cp
  {
    assert cp / 4096 == (cp / 262144) * 64 + (cp / 4096) % 64;
    assert cp / 64 == (cp / 4096) * 64 + (cp / 64) % 64;
    assert cp == (cp / 64) * 64 + cp % 64;
  }

  /** `%XY` for every byte. */
  function PercentEncode(bytes: seq<nat>): string
    requires forall i :: 0 <= i < |bytes| ==> bytes[i] < 256
    decreases |bytes|
  {
    if bytes == [] then "" else ['%', HexDigit(bytes[0] / 16), HexDigit(bytes[0] % 16)] + PercentEncode(bytes[1..])
  }

  /** Reads a string made only of `%XY` escapes back into its bytes; `None` when anything
      else occurs. */
  function PercentDecode(s: string): (bytes: Option<seq<nat>>)
    ensures bytes.Some? ==> |s| == 3 * |bytes.value|
    ensures bytes.Some? ==> forall i :: 0 <= i < |bytes.value| ==> bytes.value[i] < 256
    decreases |s|
  {
    if s == [] then Some([])
    else if |s| < 3 || s[0] != '%' || HexValue(s[1]).None? || HexValue(s[2]).None? then None
    else
      match PercentDecode(s[3..])
      case None => None
      case Some(rest) => Some([16 * HexValue(s[1]).value + HexValue(s[2]).value] + rest)
  }

  /** One escape in front of a readable string is read as one more byte. */
  lemma PercentDecodeCons(x: char, y: char, t: string, hi: nat, lo: nat, rest: seq<nat>)
    requires HexValue(x) == Some(hi) && HexValue(y) == Some(lo) && PercentDecode(t) == Some(rest)
    ensures PercentDecode(['%', x, y] + t) == Some([16 * hi + lo] + rest)
  {
    var s := ['%', x, y] + t;
    assert s[0] == '%' && s[1] == x && s[2] == y && s[3..] == t;
  }

  /** The two hexadecimal digits of a byte. It models nothing of the source:
      it is a lemma of its own only to keep the proof that uses it small. */
  lemma ByteDigits(b: nat) returns (hi: nat, lo: nat)
    requires b < 256
    ensures hi == b / 16 && lo == b % 16 && hi < 16 && b == 16 * hi + lo
  {
    hi, lo := b / 16, b % 16;
  }

  /** The first escape of a non-empty encoding. It models nothing of the source:
      it is a lemma of its own only to keep the proof that uses it small. */
  lemma PercentEncodeCons(bytes: seq<nat>)
    requires bytes != [] && forall i :: 0 <= i < |bytes| ==> bytes[i] < 256
    ensures PercentEncode(bytes) == ['%', HexDigit(bytes[0] / 16), HexDigit(bytes[0] % 16)] + PercentEncode(bytes[1..])
  {
  }

  /** Every escape `PercentEncode` writes reads back as the byte it stands for. */
  lemma {:induction false} PercentDecodeEncode(bytes: seq<nat>)
    requires forall i :: 0 <= i < |bytes| ==> bytes[i] < 256
    ensures PercentDecode(PercentEncode(bytes)) == Some(bytes)
    decreases |bytes|
  {
    if bytes != [] {
      var b, tail := bytes[0], bytes[1..];
      PercentEncodeCons(bytes);
      PercentDecodeEncode(tail);
      PercentDecodeStep(b, tail, PercentEncode(bytes), PercentEncode(tail));
      assert [b] + tail == bytes;
    }
  }

  /** The escape `PercentEncode` writes for byte `b`, in front of a readable string, is read
      back as `b`. */
  lemma PercentDecodeStep(b: nat, tail: seq<nat>, e: string, t: string)
    requires b < 256 && e == ['%', HexDigit(b / 16), HexDigit(b % 16)] + t && PercentDecode(t) == Some(tail)
    ensures PercentDecode(e) == Some([b] + tail)
  {
    var hi, lo := ByteDigits(b);
    PercentDecodeCons(HexDigit(hi), HexDigit(lo), t, hi, lo, tail);
  }

  function EncodeChar(c: char): string {
    if UriUnescaped(c) then [c] else PercentEncode(Utf8(c))
  }

  /** `encodeURI`, over strings of Unicode scalar values. */
  function EncodeURI(s: string): string
    decreases |s|
  {
    if s == [] then "" else EncodeChar(s[0]) + EncodeURI(s[1..])
  }

  /** What `encodeURI` emits is unescaped characters and '%'. */
  predicate UriSafe(s: string) {
    forall i :: 0 <= i < |s| ==> UriUnescaped(s[i]) || s[i] == '%'
  }

  lemma {:induction false} PercentEncodeSafe(bytes: seq<nat>)
    requires forall i :: 0 <= i < |bytes| ==> bytes[i] < 256
    ensures UriSafe(PercentEncode(bytes)) && |PercentEncode(bytes)| == 3 * |bytes|
    decreases |bytes|
  {
    if bytes != [] {
      PercentEncodeSafe(bytes[1..]);
    }
  }

  lemma {:induction false} EncodeURISafe(s: string)
    ensures UriSafe(EncodeURI(s))
    decreases |s|
  {
    if s != [] {
      if !UriUnescaped(s[0]) {
        PercentEncodeSafe(Utf8(s[0]));
      }
      EncodeURISafe(s[1..]);
    }
  }

  /** A string made of unescaped characters, '/' among them, comes back as it is. */
  lemma {:induction false} EncodeURIKeepsUnescaped(s: string)
    requires forall i :: 0 <= i < |s| ==> UriUnescaped(s[i])
    ensures EncodeURI(s) == s
    decreases |s|
  {
    if s != [] {
      var t := s[1..];
      assert forall i :: 0 <= i < |t| ==> UriUnescaped(t[i]) by {
        forall i | 0 <= i < |t| ensures UriUnescaped(t[i]) {
          assert t[i] == s[i + 1];
        }
      }
      EncodeURIKeepsUnescaped(t);
      assert EncodeChar(s[0]) == [s[0]];
      assert s == [s[0]] + t;
    }
  }

  /** Encoding works character by character, so the '/' between path segments survive. */
  lemma {:induction false} EncodeURIAppend(a: string, b: string)
    ensures EncodeURI(a + b) == EncodeURI(a) + EncodeURI(b)
    decreases |a|
  {
    if a != [] {
      assert (a + b)[1..] == a[1..] + b;
      EncodeURIAppend(a[1..], b);
    } else {
      assert a + b == b;
    }
  }

  /** A character `encodeURI` escapes becomes escapes whose bytes are its UTF-8 form, and that
      form decodes back to the character. */
  lemma EncodeCharDecodes(c: char)
    requires !UriUnescaped(c)
    ensures PercentDecode(EncodeChar(c)) == Some(Utf8(c))
    ensures Utf8Decode(Utf8(c)) == c as int
  {
    PercentDecodeEncode(Utf8(c));
    Utf8RoundTrip(c);
  }
}
