/** Unpadded base64url (section 5 of RFC 4648): the encoder that fills a caller's buffer, a
    decoder for it, and what the two say about comparing encoded challenges. */
module Base64Url {
  import opened Types

  const UPPER_CASE := "ABCDEFGHIJKLM" + "NOPQRSTUVWXYZ"
  const LOWER_CASE := "abcdefghijklm" + "nopqrstuvwxyz"
  const ALPHABET: string := UPPER_CASE + LOWER_CASE + "0123456789" + "-_"

  type Byte = bv8

  /** The character of a six-bit group. */
  function Symbol(i: bv6): char {
    ALPHABET[i as int]
  }

  /** The position of a character, by the ranges of table 2 of RFC 4648. */
  function Index(c: char): (k: Option<int>)
    ensures k.Some? ==> 0 <= k.value < 64
  {
    if 'A' <= c <= 'Z' then Some(c as int - 'A' as int)
    else if 'a' <= c <= 'z' then Some(c as int - 'a' as int + 26)
    else if '0' <= c <= '9' then Some(c as int - '0' as int + 52)
    else if c == '-' then Some(62)
    else if c == '_' then Some(63)
    else None
  }

  function Value(c: char): Option<bv6> {
    if Index(c).Some? then Some(Index(c).value as bv6) else None
  }

  function EncodedLength(n: nat): nat {
    n / 3 * 4 + if n % 3 == 0 then 0 else n % 3 + 1
  }

  // ----- the format, octet by octet

  function First(a: Byte): bv6 {
    (a >> 2) as bv6
  }

  function Second(a: Byte, b: Byte): bv6 {
    (((a & 3) << 4) | (b >> 4)) as bv6
  }

  function Third(b: Byte, c: Byte): bv6 {
    (((b & 15) << 2) | (c >> 6)) as bv6
  }

  function Fourth(c: Byte): bv6 {
    (c & 63) as bv6
  }

  function Group(a: Byte, b: Byte, c: Byte): string {
    [Symbol(First(a)), Symbol(Second(a, b)), Symbol(Third(b, c)), Symbol(Fourth(c))]
  }

  /** Missing octets of the last group count as zero, and no padding is written. */
  function Encoded(src: seq<Byte>): (text: string)
    ensures |text| == EncodedLength(|src|)
  {
    if |src| == 0 then []
    else if |src| == 1 then Group(src[0], 0, 0)[..2]
    else if |src| == 2 then Group(src[0], src[1], 0)[..3]
    else Group(src[0], src[1], src[2]) + Encoded(src[3..])
  }

  /** The decoder accepts exactly the unpadded encodings: only alphabet characters, no single
      left-over character, and zero in the bits that a short last group leaves unused. */
  function Decoded(text: string): Option<seq<Byte>> {
    if |text| == 0 then
      Some([])
    else if |text| == 1 then
      None
    else
      var v0, v1 := Value(text[0]), Value(text[1]);
      if v0.None? || v1.None? then
        None
      else
        var a := Octet0(v0.value, v1.value);
        if |text| == 2 then
          if v1.value & 15 == 0 then Some([a]) else None
        else
          var v2 := Value(text[2]);
          if v2.None? then
            None
          else
            var b := Octet1(v1.value, v2.value);
            if |text| == 3 then
              if v2.value & 3 == 0 then Some([a, b]) else None
            else
              var v3, rest := Value(text[3]), Decoded(text[4..]);
              if v3.None? || rest.None? then None
              else Some([a, b, Octet2(v2.value, v3.value)] + rest.value)
  }

  function Octet0(x: bv6, y: bv6): Byte {
    ((x as bv8) << 2) | ((y as bv8) >> 4)
  }

  function Octet1(y: bv6, z: bv6): Byte {
    ((y as bv8) << 4) | ((z as bv8) >> 2)
  }

  function Octet2(z: bv6, w: bv6): Byte {
    ((z as bv8) << 6) | (w as bv8)
  }

  // ----- the alphabet

  lemma UpperCase(k: nat)
    requires k < 26
    ensures UPPER_CASE[k] as int == k + 'A' as int
  {
    assert k < 13 ==> UPPER_CASE[k] == "ABCDEFGHIJKLM"[k];
    assert 13 <= k ==> UPPER_CASE[k] == "NOPQRSTUVWXYZ"[k - 13];
  }

  lemma LowerCase(k: nat)
    requires k < 26
    ensures LOWER_CASE[k] as int == k + 'a' as int
  {
    assert k < 13 ==> LOWER_CASE[k] == "abcdefghijklm"[k];
    assert 13 <= k ==> LOWER_CASE[k] == "nopqrstuvwxyz"[k - 13];
  }

  lemma Digits(k: nat)
    requires k < 10
    ensures "0123456789"[k] as int == k + '0' as int
  {
  }

  /** The whole alphabet by ranges. */
  lemma AlphabetAt(k: nat)
    requires k < 64
    ensures |ALPHABET| == 64
    ensures ALPHABET[k] == if k < 26 then (k + 'A' as int) as char
                           else if k < 52 then (k - 26 + 'a' as int) as char
                           else if k < 62 then (k - 52 + '0' as int) as char
                           else if k == 62 then '-' else '_'
  {
    assert |UPPER_CASE| == 26 && |LOWER_CASE| == 26;
    if k < 26 {
      UpperCase(k);
      assert ALPHABET[k] == UPPER_CASE[k];
    } else if k < 52 {
      LowerCase(k - 26);
      assert ALPHABET[k] == LOWER_CASE[k - 26];
    } else if k < 62 {
      Digits(k - 52);
      assert ALPHABET[k] == "0123456789"[k - 52];
    }
  }

  lemma IndexOfAlphabet(k: nat)
    requires k < 64
    ensures Index(ALPHABET[k]) == Some(k)
  {
    AlphabetAt(k);
  }

  lemma AlphabetOfIndex(c: char)
    requires Index(c).Some?
    ensures ALPHABET[Index(c).value] == c
  {
    AlphabetAt(Index(c).value);
  }

  /** The alphabet and the table agree. */
  lemma ValueOfSymbol(i: bv6)
    ensures Value(Symbol(i)) == Some(i)
  {
    hide Index;
    IndexOfAlphabet(i as int);
  }

  lemma SymbolOfValue(c: char)
    requires Value(c).Some?
    ensures Symbol(Value(c).value) == c
  {
    hide Index;
    AlphabetOfIndex(c);
    BitsOfInt(Index(c).value);
  }

  lemma BitsOfInt(k: int)
    requires 0 <= k < 64
    ensures (k as bv6) as int == k
  {
  }

  // ----- groups

  lemma SextetsToOctets(a: Byte, b: Byte, c: Byte)
    ensures Octet0(First(a), Second(a, b)) == a
    ensures Octet1(Second(a, b), Third(b, c)) == b
    ensures Octet2(Third(b, c), Fourth(c)) == c
    ensures Second(a, 0) & 15 == 0 && Third(b, 0) & 3 == 0
  {
  }

  lemma OctetsToSextets(x: bv6, y: bv6, z: bv6, w: bv6)
    ensures First(Octet0(x, y)) == x
    ensures Second(Octet0(x, y), Octet1(y, z)) == y
    ensures Third(Octet1(y, z), Octet2(z, w)) == z
    ensures Fourth(Octet2(z, w)) == w
    ensures y & 15 == 0 ==> Second(Octet0(x, y), 0) == y
    ensures z & 3 == 0 ==> Third(Octet1(y, z), 0) == z
  {
  }

  /** Three octets packed into a word. */
  function Word(a: Byte, b: Byte, c: Byte): bv32 {
    ((a as bv32) << 16) | ((b as bv32) << 8) | (c as bv32)
  }

  /** The encoder's reading of a packed word, by shifts and masks. */
  function WordSymbols(val: bv32): (text: string)
    ensures |text| == 4
  {
    [Symbol(((val >> 18) & 0x3F) as bv6), Symbol(((val >> 12) & 0x3F) as bv6),
     Symbol(((val >> 6) & 0x3F) as bv6), Symbol((val & 0x3F) as bv6)]
  }

  /** ... gives the format's six-bit groups. */
  lemma WordIsGroup(a: Byte, b: Byte, c: Byte)
    ensures WordSymbols(Word(a, b, c)) == Group(a, b, c)
  {
    hide Symbol;
  }

  // ----- round trips

  lemma {:induction false} DecodeEncode(src: seq<Byte>)
    ensures Decoded(Encoded(src)) == Some(src)
    decreases |src|
  {
    hide Symbol, Value, First, Second, Third, Fourth, Octet0, Octet1, Octet2, Decoded, Group;
    if |src| <= 2 {
      DecodeEncodeShort(src);
    } else {
      DecodeEncode(src[3..]);
      DecodeGroup(Encoded(src), src[0], src[1], src[2]);
      assert Encoded(src)[4..] == Encoded(src[3..]);
      assert [src[0], src[1], src[2]] + src[3..] == src;
    }
  }

  lemma DecodeGroup(text: string, a: Byte, b: Byte, c: Byte)
    requires |text| >= 4 && text[..4] == Group(a, b, c) && Decoded(text[4..]).Some?
    ensures Decoded(text) == Some([a, b, c] + Decoded(text[4..]).value)
  {
    hide Symbol, Value, First, Second, Third, Fourth, Octet0, Octet1, Octet2;
    SextetsToOctets(a, b, c);
    ValueOfSymbol(First(a));
    ValueOfSymbol(Second(a, b));
    ValueOfSymbol(Third(b, c));
    ValueOfSymbol(Fourth(c));
    assert forall k :: 0 <= k < 4 ==> text[k] == text[..4][k];
  }

  lemma DecodeEncodeShort(src: seq<Byte>)
    requires |src| <= 2
    ensures Decoded(Encoded(src)) == Some(src)
  {
    hide Symbol, Value, First, Second, Third, Fourth, Octet0, Octet1, Octet2;
    if |src| == 1 {
      DecodeEncodeOne(src[0]);
      assert src == [src[0]];
    } else if |src| == 2 {
      SextetsToOctets(src[0], src[1], 0);
      ValueOfSymbol(First(src[0]));
      ValueOfSymbol(Second(src[0], src[1]));
      ValueOfSymbol(Third(src[1], 0));
      assert Encoded(src) == [Symbol(First(src[0])), Symbol(Second(src[0], src[1])), Symbol(Third(src[1], 0))];
      assert src == [src[0], src[1]];
    }
  }

  lemma DecodeEncodeOne(a: Byte)
    ensures Decoded(Encoded([a])) == Some([a])
  {
    hide Symbol, Value, First, Second, Third, Fourth, Octet0, Octet1, Octet2;
    SextetsToOctets(a, 0, 0);
    ValueOfSymbol(First(a));
    ValueOfSymbol(Second(a, 0));
    assert Encoded([a]) == [Symbol(First(a)), Symbol(Second(a, 0))];
  }

  lemma {:induction false} EncodeDecode(text: string)
    requires Decoded(text).Some?
    ensures Encoded(Decoded(text).value) == text
    decreases |text|
  {
    hide Symbol, Value, First, Second, Third, Fourth, Octet0, Octet1, Octet2;
    if |text| > 1 {
      var x, y := Value(text[0]).value, Value(text[1]).value;
      var z := if |text| > 2 then Value(text[2]).value else 0;
      var w := if |text| > 3 then Value(text[3]).value else 0;
      SymbolOfValue(text[0]);
      SymbolOfValue(text[1]);
      OctetsToSextets(x, y, z, w);
      if |text| > 2 {
        SymbolOfValue(text[2]);
      }
      if |text| > 3 {
        SymbolOfValue(text[3]);
        EncodeDecode(text[4..]);
        assert Decoded(text).value[3..] == Decoded(text[4..]).value;
      }
    }
  }

  // ----- the encoder

  /** `next` is `now` with `symbols` written at `di`. */
  ghost predicate Overwritten(now: string, next: string, di: nat, symbols: string) {
    && di + |symbols| <= |now| == |next|
    && (forall k :: 0 <= k < |symbols| ==> next[di + k] == symbols[k])
    && (forall k :: 0 <= k < |now| && (k < di || di + |symbols| <= k) ==> next[k] == now[k])
  }

  /** Writes the first `count` symbols of a word into the buffer. */
  method PutSymbols(dst: array<char>, di: nat, val: bv32, count: nat)
    requires 2 <= count <= 4 && di + count <= dst.Length
    modifies dst
    ensures Overwritten(old(dst[..]), dst[..], di, WordSymbols(val)[..count])
  {
    hide Symbol;
    ghost var symbols := WordSymbols(val)[..count];
    dst[di] := Symbol(((val >> 18) & 0x3F) as bv6);
    dst[di + 1] := Symbol(((val >> 12) & 0x3F) as bv6);
    if count > 2 {
      dst[di + 2] := Symbol(((val >> 6) & 0x3F) as bv6);
    }
    if count > 3 {
      dst[di + 3] := Symbol((val & 0x3F) as bv6);
    }
    assert dst[di] == symbols[0] && dst[di + 1] == symbols[1];
    assert count > 2 ==> dst[di + 2] == symbols[2];
    assert count > 3 ==> dst[di + 3] == symbols[3];
  }

  /** The first `di` characters followed by `tail` are the whole text, and nothing at or after
      `di` has been written yet. */
  ghost predicate Filled(before: string, now: string, di: nat, text: string, tail: string) {
    di <= |now| == |before| && now[..di] + tail == text && now[di..] == before[di..]
  }

  lemma FillMore(before: string, now: string, next: string, di: nat, symbols: string, text: string, tail: string)
    requires Filled(before, now, di, text, symbols + tail)
    requires Overwritten(now, next, di, symbols)
    ensures Filled(before, next, di + |symbols|, text, tail)
  {
    assert next[..di + |symbols|] == now[..di] + symbols;
    assert now[..di] + symbols + tail == now[..di] + (symbols + tail);
    assert next[di + |symbols|..] == now[di + |symbols|..];
    assert now[di + |symbols|..] == now[di..][|symbols|..];
    assert before[di + |symbols|..] == before[di..][|symbols|..];
  }

  lemma FilledUp(before: string, now: string, di: nat, text: string)
    requires Filled(before, now, di, text, [])
    ensures di == |text| && now == text + before[|text|..]
  {
    assert now == now[..di] + now[di..];
  }

  /** Fills the front of the buffer with the encoding and leaves the rest of it alone. */
  method Encode(dst: array<char>, src: seq<Byte>)
    requires EncodedLength(|src|) <= dst.Length
    modifies dst
    ensures dst[..] == Encoded(src) + old(dst[EncodedLength(|src|)..])
  {
    hide Group, Word, WordSymbols, Encoded, Filled, Overwritten, EncodedLength;
    ghost var before := dst[..];
    var di, si := 0, 0;
    var n := |src| / 3 * 3;
    NothingFilled(before, src);
    while si < n
      invariant 0 <= si <= n && si % 3 == 0 && di == si / 3 * 4
      invariant Filled(before, dst[..], di, Encoded(src), Encoded(src[si..]))
    {
      EncodeGroup(dst, di, src, si, before);
      si := si + 3;
      di := di + 4;
    }
    EncodeRest(dst, di, src, si, before);
  }

  /** One round of the loop: three octets become four characters. */
  method EncodeGroup(dst: array<char>, di: nat, src: seq<Byte>, si: nat, ghost before: string)
    requires EncodedLength(|src|) <= dst.Length && si + 3 <= |src| && si % 3 == 0 && di == si / 3 * 4
    requires Filled(before, dst[..], di, Encoded(src), Encoded(src[si..]))
    modifies dst
    ensures Filled(before, dst[..], di + 4, Encoded(src), Encoded(src[si + 3..]))
  {
    hide Group, Word, WordSymbols, Encoded, Filled, Overwritten, EncodedLength;
    WordIsGroup(src[si], src[si + 1], src[si + 2]);
    EncodedTail(src, si);
    FitsGroup(|src|, si);
    ghost var now := dst[..];
    var val := Word(src[si], src[si + 1], src[si + 2]);
    PutSymbols(dst, di, val, 4);
    assert WordSymbols(val)[..4] == WordSymbols(val);
    FillMore(before, now, dst[..], di, WordSymbols(val)[..4], Encoded(src), Encoded(src[si + 3..]));
  }

  /** The one or two octets after the last whole group, if any. */
  method EncodeRest(dst: array<char>, di: nat, src: seq<Byte>, si: nat, ghost before: string)
    requires EncodedLength(|src|) <= dst.Length && si == |src| / 3 * 3 && di == si / 3 * 4
    requires Filled(before, dst[..], di, Encoded(src), Encoded(src[si..]))
    modifies dst
    ensures dst[..] == Encoded(src) + before[EncodedLength(|src|)..]
  {
    hide Group, WordSymbols, Encoded, Filled, Overwritten, EncodedLength;
    var remain := |src| - si;
    EncodedRest(src, si);
    if remain == 0 {
      FilledUp(before, dst[..], di, Encoded(src));
      return;
    }
    var val := TailWord(src, si);
    FitsGroup(|src|, si);
    ghost var now := dst[..];
    PutSymbols(dst, di, val, remain + 1);
    assert WordSymbols(val)[..remain + 1] + [] == Encoded(src[si..]);
    FillMore(before, now, dst[..], di, WordSymbols(val)[..remain + 1], Encoded(src), []);
    FilledUp(before, dst[..], di + remain + 1, Encoded(src));
  }

  lemma NothingFilled(before: string, src: seq<Byte>)
    ensures Filled(before, before, 0, Encoded(src), Encoded(src[0..]))
  {
    hide Encoded;
    assert src[0..] == src;
  }

  lemma FitsGroup(n: nat, si: nat)
    requires si % 3 == 0 && si < n
    ensures si / 3 * 4 + (if si + 3 <= n then 4 else n - si + 1) <= EncodedLength(n)
  {
  }

  /** What is left after the whole groups. */
  lemma EncodedRest(src: seq<Byte>, si: nat)
    requires si == |src| / 3 * 3
    ensures Encoded(src[si..]) == if |src| == si then []
                                  else Group(src[si], if |src| == si + 2 then src[si + 1] else 0, 0)[..|src| - si + 1]
  {
    hide Group;
  }

  /** The one or two octets after the last whole group, packed into a word. */
  method TailWord(src: seq<Byte>, si: nat) returns (val: bv32)
    requires si + 1 <= |src| <= si + 2
    ensures WordSymbols(val) == Group(src[si], if |src| == si + 2 then src[si + 1] else 0, 0)
  {
    hide Group, WordSymbols;
    val := (src[si] as bv32) << 16;
    if |src| - si == 2 {
      val := val | ((src[si + 1] as bv32) << 8);
    }
    TailWordIsGroup(src[si], if |src| == si + 2 then src[si + 1] else 0);
  }

  lemma TailWordIsGroup(a: Byte, b: Byte)
    ensures WordSymbols(((a as bv32) << 16) | ((b as bv32) << 8)) == Group(a, b, 0)
    ensures WordSymbols((a as bv32) << 16) == Group(a, 0, 0)
  {
    hide Symbol;
  }

  /** One more whole group. */
  lemma EncodedTail(src: seq<Byte>, si: nat)
    requires si + 3 <= |src|
    ensures Encoded(src[si..]) == Group(src[si], src[si + 1], src[si + 2]) + Encoded(src[si + 3..])
  {
    hide Group;
    assert src[si..][3..] == src[si + 3..];
  }

  /** Two known encodings: eleven octets of text, and three that use both of the alphabet's last
      characters. */
  lemma KnownVectors()
    ensures Encoded([104, 101, 108, 108, 111, 32, 119, 111, 114, 108, 100]) == "aGVsbG8gd29ybGQ"
    ensures Encoded([251, 255, 254]) == "-__-"
  {
    KnownGroups();
    hide Group;
    var src: seq<Byte> := [104, 101, 108, 108, 111, 32, 119, 111, 114, 108, 100];
    assert src[3..] == [108, 111, 32, 119, 111, 114, 108, 100];
    assert src[3..][3..] == [119, 111, 114, 108, 100];
    assert src[3..][3..][3..] == [108, 100];
  }

  lemma KnownGroups()
    ensures Group(104, 101, 108) == "aGVs" && Group(108, 111, 32) == "bG8g"
    ensures Group(119, 111, 114) == "d29y" && Group(108, 100, 0)[..3] == "bGQ"
    ensures Group(251, 255, 254) == "-__-"
  {
  }

  // ----- challenges

  /** The comparison made when a call is authorized: the browser's challenge against the encoding
      of the 32-byte payload. */
  predicate ChallengeMatches(challenge: string, payload: seq<Byte>) {
    challenge == Encoded(payload)
  }

  /** A challenge matches a payload exactly when it decodes to it, so it matches at most one; and
      only a challenge of 43 characters matches one of 32 bytes. */
  lemma ChallengeBindsPayload(challenge: string, payload: seq<Byte>)
    ensures ChallengeMatches(challenge, payload) <==> Decoded(challenge) == Some(payload)
    ensures ChallengeMatches(challenge, payload) && |payload| == 32 ==> |challenge| == 43
  {
    DecodeEncode(payload);
    if Decoded(challenge).Some? {
      EncodeDecode(challenge);
    }
  }

  /** The check itself, on a buffer of 43 characters that the encoder fills. */
  method CheckChallenge(challenge: string, payload: seq<Byte>) returns (accepted: bool)
    requires |payload| == 32
    ensures accepted <==> Decoded(challenge) == Some(payload)
  {
    hide Encoded, Decoded;
    var expected := new char[43];
    Encode(expected, payload);
    assert expected[..] == Encoded(payload);
    accepted := challenge == expected[..];
    ChallengeBindsPayload(challenge, payload);
  }
}
