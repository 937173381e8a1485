/** Packing and unpacking of names (farms/farm-sdk/src/pack.rs, string.rs). */
module Pack {
  import opened Bytes

  const NAME_LEN: nat := 64

  predicate Tail(b: byte) { 0x80 <= b <= 0xBF }

  /** One well-formed UTF-8 sequence (section 4 of RFC 3629). */
  predicate Utf8Sequence(s: seq<byte>)
  {
    || (|s| == 1 && s[0] <= 0x7F)
    || (|s| == 2 && 0xC2 <= s[0] <= 0xDF && Tail(s[1]))
    || (|s| == 3 && 0xE0 <= s[0] <= 0xEF && Tail(s[1]) && Tail(s[2])
        && (s[0] == 0xE0 ==> s[1] >= 0xA0) && (s[0] == 0xED ==> s[1] <= 0x9F))
    || (|s| == 4 && 0xF0 <= s[0] <= 0xF4 && Tail(s[1]) && Tail(s[2]) && Tail(s[3])
        && (s[0] == 0xF0 ==> s[1] >= 0x90) && (s[0] == 0xF4 ==> s[1] <= 0x8F))
  }

  predicate ValidUtf8(s: seq<byte>)
    decreases |s|
  {
    s == [] || exists n :: 1 <= n <= |s| && Utf8Sequence(s[..n]) && ValidUtf8(s[n..])
  }

  // ----- UTF-8 as the encoding of characters -----

  /** A Unicode scalar value: a code point that is not a surrogate. */
  predicate Scalar(c: nat)
  {
    c < 0xD800 || 0xE000 <= c < 0x11_0000
  }

  /** The bytes of one character (section 3 of RFC 3629). */
  function Encoded(c: nat): (s: seq<byte>)
    requires Scalar(c)
  {
    if c < 0x80 then [c]
    else if c < 0x800 then [0xC0 + c / 0x40, 0x80 + c % 0x40]
    else if c < 0x1_0000 then [0xE0 + c / 0x1000, 0x80 + c / 0x40 % 0x40, 0x80 + c % 0x40]
    else [0xF0 + c / 0x4_0000, 0x80 + c / 0x1000 % 0x40, 0x80 + c / 0x40 % 0x40, 0x80 + c % 0x40]
  }

  /** The character that a well-formed sequence spells. */
  function Spelled(s: seq<byte>): (c: nat)
    requires Utf8Sequence(s)
    ensures Scalar(c)
  {
    if |s| == 1 then s[0]
    else if |s| == 2 then (s[0] as int - 0xC0) * 0x40 + (s[1] as int - 0x80)
    else if |s| == 3 then (s[0] as int - 0xE0) * 0x1000 + (s[1] as int - 0x80) * 0x40 + (s[2] as int - 0x80)
    else (s[0] as int - 0xF0) * 0x4_0000 + (s[1] as int - 0x80) * 0x1000 + (s[2] as int - 0x80) * 0x40 + (s[3] as int - 0x80)
  }

  lemma ThreeDigits(a: nat, b: nat, c: nat)
    requires b < 0x40 && c < 0x40
    ensures var n := a * 0x1000 + b * 0x40 + c; n / 0x1000 == a && n / 0x40 % 0x40 == b && n % 0x40 == c
  {
    assert (a * 0x1000 + b * 0x40 + c) / 0x40 == a * 0x40 + b;
  }

  lemma FourDigits(a: nat, b: nat, c: nat, d: nat)
    requires b < 0x40 && c < 0x40 && d < 0x40
    ensures var n := a * 0x4_0000 + b * 0x1000 + c * 0x40 + d;
            n / 0x4_0000 == a && n / 0x1000 % 0x40 == b && n / 0x40 % 0x40 == c && n % 0x40 == d
  {
    ThreeDigits(a * 0x40 + b, c, d);
    assert (a * 0x4_0000 + b * 0x1000 + c * 0x40 + d) / 0x1000 == a * 0x40 + b;
  }

  lemma SpelledEncodes(s: seq<byte>)
    requires Utf8Sequence(s)
    ensures Encoded(Spelled(s)) == s
  {
    if |s| == 3 {
      ThreeDigits(s[0] as int - 0xE0, s[1] as int - 0x80, s[2] as int - 0x80);
    } else if |s| == 4 {
      FourDigits(s[0] as int - 0xF0, s[1] as int - 0x80, s[2] as int - 0x80, s[3] as int - 0x80);
    }
  }

  /** The well-formed sequences are exactly the encodings of characters. */
  lemma SequencesAreCharacters(s: seq<byte>)
    ensures Utf8Sequence(s) <==> exists c :: Scalar(c) && s == Encoded(c)
  {
    if Utf8Sequence(s) {
      SpelledEncodes(s);
    }
    forall c | Scalar(c) && s == Encoded(c) ensures Utf8Sequence(s) { EncodedIsSequence(c); }
  }

  lemma EncodedIsSequence(c: nat)
    requires Scalar(c)
    ensures Utf8Sequence(Encoded(c))
  {
  }

  function EncodedText(cs: seq<nat>): (s: seq<byte>)
    requires forall i :: 0 <= i < |cs| ==> Scalar(cs[i])
  {
    if cs == [] then [] else Encoded(cs[0]) + EncodedText(cs[1..])
  }

  /** Texts are valid exactly when they are the encoding of a sequence of characters. */
  lemma ValidTexts(s: seq<byte>)
    ensures ValidUtf8(s) <==> exists cs :: (forall i :: 0 <= i < |cs| ==> Scalar(cs[i])) && EncodedText(cs) == s
  {
    if ValidUtf8(s) {
      var cs := Characters(s);
    }
    forall cs | (forall i :: 0 <= i < |cs| ==> Scalar(cs[i])) && EncodedText(cs) == s ensures ValidUtf8(s) { EncodedTextIsValid(cs); }
  }

  lemma {:induction false} Characters(s: seq<byte>) returns (cs: seq<nat>)
    requires ValidUtf8(s)
    ensures (forall i :: 0 <= i < |cs| ==> Scalar(cs[i])) && EncodedText(cs) == s
    decreases |s|
  {
    if s == [] {
      cs := [];
    } else {
      var n :| 1 <= n <= |s| && Utf8Sequence(s[..n]) && ValidUtf8(s[n..]);
      var first, tail := s[..n], s[n..];
      var rest := Characters(tail);
      SpelledEncodes(first);
      TextCons(Spelled(first), rest);
      cs := [Spelled(first)] + rest;
      assert s == first + tail;
    }
  }

  lemma TextCons(c: nat, cs: seq<nat>)
    requires Scalar(c) && forall i :: 0 <= i < |cs| ==> Scalar(cs[i])
    ensures EncodedText([c] + cs) == Encoded(c) + EncodedText(cs)
  {
    assert ([c] + cs)[1..] == cs;
  }

  lemma {:induction false} EncodedTextIsValid(cs: seq<nat>)
    requires forall i :: 0 <= i < |cs| ==> Scalar(cs[i])
    ensures ValidUtf8(EncodedText(cs))
    decreases |cs|
  {
    if cs != [] {
      EncodedTextIsValid(cs[1..]);
      EncodedIsSequence(cs[0]);
      var first, s := Encoded(cs[0]), EncodedText(cs);
      assert s[..|first|] == first && s[|first|..] == EncodedText(cs[1..]);
    }
  }

  // ----- names -----

  /** A UTF-8 string of at most 64 bytes. It may contain NUL bytes. */
  type ArrayString64 = s: seq<byte> | |s| <= NAME_LEN && ValidUtf8(s)

  predicate NulFree(s: seq<byte>) { 0 !in s }

  function CheckDataLen(len: nat, minLen: nat): (r: Result<()>)
    ensures r.Ok? <==> minLen <= len
  {
    if len < minLen then Err(AccountDataTooSmall) else Ok(())
  }

  /** The bytes before the first NUL. */
  function BeforeNul(s: seq<byte>): (p: seq<byte>)
    ensures p <= s && NulFree(p)
    ensures |p| < |s| ==> s[|p|] == 0
  {
    if s == [] || s[0] == 0 then [] else [s[0]] + BeforeNul(s[1..])
  }

  /** A name field that holds `name` and zero bytes after it. */
  function Padded(name: seq<byte>): (field: seq<byte>)
    requires |name| <= NAME_LEN
    ensures |field| == NAME_LEN
  {
    name + Zeros(NAME_LEN - |name|)
  }

  /** What packing `name` leaves in a name field: the tail keeps its old bytes. */
  function Overlaid(name: seq<byte>, field: seq<byte>): (r: seq<byte>)
    requires |name| <= |field|
    ensures |r| == |field|
  {
    name + field[|name|..]
  }

  method PackArrayString64(name: ArrayString64, data: array<byte>, offset: nat)
    requires offset + NAME_LEN <= data.Length
    modifies data
    ensures data[..] == Splice(old(data[..]), offset, Overlaid(name, old(data[offset..offset + NAME_LEN])))
  {
    var i := 0;
    while i < NAME_LEN && i < |name|
      invariant 0 <= i <= |name|
      invariant data[..] == Splice(old(data[..]), offset, name[..i])
    {
      data[offset + i] := name[i];
      i := i + 1;
    }
  }

  function UnpackArrayString64(field: seq<byte>): (r: Result<ArrayString64>)
    requires |field| == NAME_LEN
    ensures r.Ok? ==> NulFree(r.value) && r.value <= field && (|r.value| < NAME_LEN ==> field[|r.value|] == 0)
    ensures r.Err? ==> r.error == InvalidAccountData
                       && exists n :: 0 <= n <= NAME_LEN && NulFree(field[..n]) && (n < NAME_LEN ==> field[n] == 0) && !ValidUtf8(field[..n])
  {
    var name := BeforeNul(field);
    assert name == field[..|name|];
    if ValidUtf8(name) then Ok(name) else Err(InvalidAccountData)
  }

  /** The first NUL splits a sequence in only one way. */
  lemma {:induction false} BeforeNulUnique(s: seq<byte>, p: seq<byte>)
    requires p <= s && NulFree(p)
    requires |p| < |s| ==> s[|p|] == 0
    ensures BeforeNul(s) == p
  {
    if p != [] {
      assert s[0] == p[0] && p[0] in p;
      BeforeNulUnique(s[1..], p[1..]);
    }
  }

  /** Exactly when a packed name reads back: a name with a NUL, or a stale byte just after it, does not. */
  lemma NameRoundTrip(name: ArrayString64, field: seq<byte>)
    requires |field| == NAME_LEN
    ensures UnpackArrayString64(Overlaid(name, field)) == Ok(name)
            <==> NulFree(name) && (|name| < NAME_LEN ==> field[|name|] == 0)
  {
    var packed := Overlaid(name, field);
    if NulFree(name) && (|name| < NAME_LEN ==> field[|name|] == 0) {
      BeforeNulUnique(packed, name);
    } else if NulFree(name) {
      assert packed[|name|] != 0;
    }
  }

  lemma UnpackPadded(name: ArrayString64)
    requires NulFree(name)
    ensures UnpackArrayString64(Padded(name)) == Ok(name) && BeforeNul(Padded(name)) == name
  {
    BeforeNulUnique(Padded(name), name);
  }

  /** Every NUL of the name stands at its end, so that zero padding does not tell it from a shorter name. */
  predicate NulsAtEnd(name: seq<byte>)
  {
    forall k :: |BeforeNul(name)| <= k < |name| ==> name[k] == 0
  }

  lemma NulFreeNames(name: seq<byte>)
    ensures NulFree(name) <==> BeforeNul(name) == name
    ensures NulFree(name) ==> NulsAtEnd(name)
  {
    if NulFree(name) { BeforeNulUnique(name, name); }
  }

  /** Cutting a valid string at its first NUL leaves a valid string. */
  lemma {:induction false} BeforeNulValid(s: seq<byte>)
    requires ValidUtf8(s)
    ensures ValidUtf8(BeforeNul(s))
    decreases |s|
  {
    if s != [] {
      var n :| 1 <= n <= |s| && Utf8Sequence(s[..n]) && ValidUtf8(s[n..]);
      if s[0] != 0 {
        NoNulInside(s[..n]);
        BeforeNulAfter(s, n);
        BeforeNulValid(s[n..]);
        var p := BeforeNul(s);
        assert p[..n] == s[..n] && p[n..] == BeforeNul(s[n..]);
      }
    }
  }

  /** Only a sequence of one byte can be a NUL. */
  lemma NoNulInside(c: seq<byte>)
    requires Utf8Sequence(c) && c[0] != 0
    ensures NulFree(c)
  {
  }

  lemma BeforeNulAfter(s: seq<byte>, n: nat)
    requires n <= |s| && NulFree(s[..n])
    ensures BeforeNul(s) == s[..n] + BeforeNul(s[n..])
  {
    BeforeNulUnique(s, s[..n] + BeforeNul(s[n..]));
  }

  /** What a padded field reads as: the name up to its first NUL, for any name. */
  lemma PaddedReads(name: ArrayString64)
    ensures UnpackArrayString64(Padded(name)) == Ok(BeforeNul(name)) && BeforeNul(Padded(name)) == BeforeNul(name)
    ensures Padded(name) == Padded(BeforeNul(name)) <==> NulsAtEnd(name)
  {
    var p := BeforeNul(name);
    BeforeNulUnique(Padded(name), p);
    BeforeNulValid(name);
    if Padded(name) == Padded(p) {
      forall k | |p| <= k < |name| ensures name[k] == 0 {
        assert Padded(name)[k] == Padded(p)[k];
      }
    }
  }

  /** Packing over an empty field, or over the same name, gives the padded form. */
  lemma OverlayCases(name: ArrayString64)
    ensures Overlaid(name, Padded([])) == Padded(name)
    ensures Overlaid(name, Padded(name)) == Padded(name)
  {
  }
}
