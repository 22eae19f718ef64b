/**
 * UTF-8 as Python's "utf-8" codec does it: `str.encode("utf-8")` on a string of
 * Unicode scalar values (a Dafny `char`), and `bytes.decode("utf-8")` both in
 * strict mode (any ill-formed byte raises) and with errors="ignore" (ill-formed
 * bytes are dropped).
 */
module Utf8 {
  import opened Wrappers

  newtype byte = b: int | 0 <= b < 0x100

  /** The UTF-8 form of one scalar value (section 3.9 of the Unicode Standard, table 3-6). */
  function EncodeChar(c: char): (bs: seq<byte>)
    ensures 1 <= |bs| <= 4
    ensures SequenceLength(bs[0]) == |bs|
    ensures forall i :: 1 <= i < |bs| ==> IsContinuation(bs[i])
  {
    var n := c as int;
    if n < 0x80 then
      [n as byte]
    else if n < 0x800 then
      [(0xC0 + n / 0x40) as byte, (0x80 + n % 0x40) as byte]
    else if n < 0x1_0000 then
      [(0xE0 + n / 0x1000) as byte, (0x80 + n / 0x40 % 0x40) as byte, (0x80 + n % 0x40) as byte]
    else
      [(0xF0 + n / 0x4_0000) as byte, (0x80 + n / 0x1000 % 0x40) as byte,
       (0x80 + n / 0x40 % 0x40) as byte, (0x80 + n % 0x40) as byte]
  }

  /** `s.encode("utf-8")` */
  function Encode(s: string): (bs: seq<byte>)
    ensures |s| <= |bs| <= 4 * |s|
  {
    if s == [] then [] else EncodeChar(s[0]) + Encode(s[1..])
  }

  /** How many bytes the sequence led by `b` must have; 0 when `b` cannot lead one. */
  function SequenceLength(b: byte): nat
  {
    if b < 0x80 then 1
    else if 0xC0 <= b < 0xE0 then 2
    else if 0xE0 <= b < 0xF0 then 3
    else if 0xF0 <= b < 0xF8 then 4
    else 0
  }

  predicate IsContinuation(b: byte)
  {
    0x80 <= b < 0xC0
  }

  function Payload(b: byte): int
  {
    b as int - 0x80
  }

  /**
   * The scalar value that a well-formed sequence at the start of `bs` encodes,
   * with the sequence's length; None when `bs` does not start with one
   * (a byte that cannot lead, a missing or wrong continuation byte, an
   * overlong form, a surrogate, a value above U+10FFFF).
   */
  function DecodeFirst(bs: seq<byte>): (r: Option<(char, nat)>)
    ensures r.Some? ==> 1 <= r.value.1 <= |bs| && r.value.1 == SequenceLength(bs[0])
  {
    if |bs| == 0 then None
    else
      var n := SequenceLength(bs[0]);
      if n == 0 || |bs| < n then None
      else if n == 1 then Some(((bs[0] as int) as char, 1))
      else if n == 2 then
        if !IsContinuation(bs[1]) then None
        else
          var v := (bs[0] as int - 0xC0) * 0x40 + Payload(bs[1]);
          if v < 0x80 then None else Some((v as char, 2))
      else if n == 3 then
        if !IsContinuation(bs[1]) || !IsContinuation(bs[2]) then None
        else
          var v := (bs[0] as int - 0xE0) * 0x1000 + Payload(bs[1]) * 0x40 + Payload(bs[2]);
          if v < 0x800 || (0xD800 <= v < 0xE000) then None else Some((v as char, 3))
      else
        if !IsContinuation(bs[1]) || !IsContinuation(bs[2]) || !IsContinuation(bs[3]) then None
        else
          var v := (bs[0] as int - 0xF0) * 0x4_0000 + Payload(bs[1]) * 0x1000
                   + Payload(bs[2]) * 0x40 + Payload(bs[3]);
          if v < 0x1_0000 || 0x10_FFFF < v then None else Some((v as char, 4))
  }

  /** What decoding produced, and whether no byte had to be dropped. */
  datatype Decoded = Decoded(text: string, clean: bool)

  /**
   * `bs.decode("utf-8", errors="ignore")` as `text`; `clean` is false exactly
   * when strict `bs.decode("utf-8")` raises UnicodeDecodeError. Dropping one
   * byte at a time gives what dropping Python's maximal ill-formed subpart
   * gives, since the continuation bytes of such a subpart cannot lead a
   * sequence and are dropped in turn.
   */
  function Decode(bs: seq<byte>): (d: Decoded)
    decreases |bs|
  {
    if |bs| == 0 then Decoded("", true)
    else
      match DecodeFirst(bs)
      case Some((c, n)) =>
        var rest := Decode(bs[n..]);
        Decoded([c] + rest.text, rest.clean)
      case None =>
        Decoded(Decode(bs[1..]).text, false)
  }

  /** Strict `bs.decode("utf-8")`: None where Python raises UnicodeDecodeError. */
  function DecodeStrict(bs: seq<byte>): Option<string>
  {
    var d := Decode(bs);
    if d.clean then Some(d.text) else None
  }

  lemma {:induction false} EncodeAppend(a: string, b: string)
    ensures Encode(a + b) == Encode(a) + Encode(b)
  {
    if a == [] {
      assert a + b == b;
    } else {
      assert a + b == [a[0]] + (a[1..] + b);
      EncodeCons(a[0], a[1..] + b);
      EncodeAppend(a[1..], b);
      assert a == [a[0]] + a[1..];
      EncodeCons(a[0], a[1..]);
    }
  }

  lemma EncodeCons(c: char, t: string)
    ensures Encode([c] + t) == EncodeChar(c) + Encode(t)
  {
    assert ([c] + t)[0] == c && ([c] + t)[1..] == t;
  }

  lemma TwoByteValue(n: int)
    requires 0x80 <= n < 0x800
    ensures (n / 0x40) * 0x40 + n % 0x40 == n
  {
  }

  lemma ThreeByteValue(n: int)
    requires 0x800 <= n < 0x1_0000
    ensures (n / 0x1000) * 0x1000 + (n / 0x40 % 0x40) * 0x40 + n % 0x40 == n
  {
    assert n / 0x40 == (n / 0x1000) * 0x40 + n / 0x40 % 0x40;
  }

  lemma FourByteValue(n: int)
    requires 0x1_0000 <= n < 0x11_0000
    ensures (n / 0x4_0000) * 0x4_0000 + (n / 0x1000 % 0x40) * 0x1000
            + (n / 0x40 % 0x40) * 0x40 + n % 0x40 == n
  {
    assert n / 0x1000 == (n / 0x4_0000) * 0x40 + n / 0x1000 % 0x40;
    assert n / 0x40 == (n / 0x1000) * 0x40 + n / 0x40 % 0x40;
  }

  /** The first sequence of an encoding decodes back to its scalar value. */
  lemma DecodeFirstEncodeChar(c: char, rest: seq<byte>)
    ensures DecodeFirst(EncodeChar(c) + rest) == Some((c, |EncodeChar(c)|))
  {
    var n := c as int;
    var bs := EncodeChar(c) + rest;
    if n < 0x80 {
    } else if n < 0x800 {
      TwoByteValue(n);
    } else if n < 0x1_0000 {
      ThreeByteValue(n);
    } else {
      FourByteValue(n);
    }
  }

  /** Round trip: decoding an encoding gives the string back, with no byte dropped. */
  lemma {:induction false} DecodeEncode(s: string)
    ensures Decode(Encode(s)) == Decoded(s, true)
  {
    if s != [] {
      var e := EncodeChar(s[0]);
      DecodeFirstEncodeChar(s[0], Encode(s[1..]));
      assert (e + Encode(s[1..]))[|e|..] == Encode(s[1..]);
      DecodeEncode(s[1..]);
      assert [s[0]] + s[1..] == s;
    }
  }

  /** Bytes that are all continuation bytes decode to nothing. */
  lemma {:induction false} DecodeContinuations(bs: seq<byte>)
    requires forall i :: 0 <= i < |bs| ==> IsContinuation(bs[i])
    ensures Decode(bs) == Decoded("", bs == [])
  {
    if bs != [] {
      DecodeContinuations(bs[1..]);
    }
  }

  /** A proper prefix of one character's encoding decodes to nothing. */
  lemma DecodePartial(c: char, k: nat)
    requires k < |EncodeChar(c)|
    ensures Decode(EncodeChar(c)[..k]) == Decoded("", k == 0)
  {
    var bs := EncodeChar(c)[..k];
    if k > 0 {
      assert DecodeFirst(bs) == None;
      DecodeContinuations(bs[1..]);
    }
  }

  /** Decoding past a whole encoded character emits it and goes on with the rest. */
  lemma DecodeAfterChar(c: char, rest: seq<byte>)
    ensures Decode(EncodeChar(c) + rest) == Decoded([c] + Decode(rest).text, Decode(rest).clean)
  {
    DecodeFirstEncodeChar(c, rest);
    assert (EncodeChar(c) + rest)[|EncodeChar(c)|..] == rest;
  }

  /**
   * `kept` is the longest prefix of `s` (in characters) whose UTF-8 form
   * takes at most `budget` bytes.
   */
  predicate LongestFittingPrefix(s: string, kept: string, budget: nat)
  {
    && |kept| <= |s| && kept == s[..|kept|]
    && |Encode(kept)| <= budget
    && (|kept| < |s| ==> |Encode(s[..|kept| + 1])| > budget)
  }

  /**
   * `d` decodes the first k bytes of the encoding of `s` as the longest
   * prefix of `s` whose encoding fits in k bytes, clean exactly when that
   * prefix takes all k bytes.
   */
  ghost predicate TruncatedTo(s: string, k: nat, d: Decoded)
  {
    LongestFittingPrefix(s, d.text, k) && (d.clean <==> |Encode(d.text)| == k)
  }

  /** The cut falls inside the first character: nothing is decoded. */
  lemma TruncatedInFirstChar(c: char, t: string, k: nat)
    requires k < |EncodeChar(c)|
    ensures TruncatedTo([c] + t, k, Decode((EncodeChar(c) + Encode(t))[..k]))
  {
    assert (EncodeChar(c) + Encode(t))[..k] == EncodeChar(c)[..k];
    DecodePartial(c, k);
    assert ([c] + t)[..1] == [c];
    EncodeCons(c, []);
    assert [c] + [] == [c];
  }

  /** Putting a character in front of a string and of its longest fitting prefix keeps it longest fitting. */
  lemma FittingPrefixCons(c: char, t: string, r: string, m: nat)
    requires LongestFittingPrefix(t, r, m)
    ensures LongestFittingPrefix([c] + t, [c] + r, |EncodeChar(c)| + m)
  {
    EncodeCons(c, r);
    assert ([c] + t)[..|r| + 1] == [c] + t[..|r|];
    if |r| < |t| {
      assert ([c] + t)[..|r| + 2] == [c] + t[..|r| + 1];
      EncodeCons(c, t[..|r| + 1]);
    }
  }

  /** The cut falls after the first character: it is decoded, then the rest as for the tail. */
  lemma TruncatedAfterFirstChar(c: char, t: string, k: nat)
    requires |EncodeChar(c)| <= k <= |EncodeChar(c)| + |Encode(t)|
    requires TruncatedTo(t, k - |EncodeChar(c)|, Decode(Encode(t)[..k - |EncodeChar(c)|]))
    ensures TruncatedTo([c] + t, k, Decode((EncodeChar(c) + Encode(t))[..k]))
  {
    var e := EncodeChar(c);
    var m := k - |e|;
    var rd := Decode(Encode(t)[..m]);
    assert Decode((e + Encode(t))[..k]) == Decoded([c] + rd.text, rd.clean) by {
      assert (e + Encode(t))[..k] == e + Encode(t)[..m];
      DecodeAfterChar(c, Encode(t)[..m]);
    }
    FittingPrefixCons(c, t, rd.text, m);
    EncodeCons(c, rd.text);
  }

  /**
   * Decoding the first k bytes of an encoding with errors="ignore" gives the
   * longest prefix of the string whose encoding fits in k bytes: only the
   * partial trailing sequence, if any, is dropped, and the strict decode
   * succeeds exactly when k falls on a character boundary.
   */
  lemma {:induction false} DecodeTruncated(s: string, k: nat)
    requires k <= |Encode(s)|
    ensures var d := Decode(Encode(s)[..k]);
      LongestFittingPrefix(s, d.text, k) && (d.clean <==> |Encode(d.text)| == k)
  {
    if s == [] {
      return;
    }
    var c, t := s[0], s[1..];
    assert s == [c] + t;
    EncodeCons(c, t);
    if k < |EncodeChar(c)| {
      TruncatedInFirstChar(c, t, k);
    } else {
      DecodeTruncated(t, k - |EncodeChar(c)|);
      TruncatedAfterFirstChar(c, t, k);
    }
  }
}
