/** CSRF tokens: a MAC over the session's digest and a random value, both length-delimited. */
module Csrf {
  import opened Wrappers
  import opened Bytes
  import opened Sequences
  import opened Hex
  import opened AuthErrors

  /** The signing key, as the function it computes on messages. */
  datatype CsrfKey = CsrfKey(mac: string -> Bytes32)

  datatype CsrfRejection = Absent | Duplicated | Malformed | Mismatched

  function Decimal(n: nat): (digits: string)
    ensures digits != ""
  {
    var last := [('0' as int + n % 10) as char];
    if n < 10 then last else Decimal(n / 10) + last
  }

  function Delimited(text: string): string {
    Decimal(|text|) + "!" + text
  }

  /** Each half preceded by its length, with `!` between the four parts. */
  function Message(sessionHex: string, randomHex: string): string {
    Delimited(sessionHex) + "!" + Delimited(randomHex)
  }

  function Token(key: CsrfKey, session: Bytes32, random: Bytes32): string {
    HexOf(key.mac(Message(HexOf(session), HexOf(random)))) + "." + HexOf(random)
  }

  method Issue(key: CsrfKey, session: Bytes32, entropy: Option<Bytes32>) returns (r: Result<string, AuthError>)
    ensures r == if entropy.None? then Err(EntropyUnavailable) else Ok(Token(key, session, entropy.value))
  {
    if entropy.None? {
      return Err(EntropyUnavailable);
    }
    var sessionHex := Encode(session);
    var randomHex := Encode(entropy.value);
    var macHex := Encode(key.mac(Message(sessionHex, randomHex)));
    r := Ok(macHex + "." + randomHex);
  }

  /** Where the text is cut at its first occurrence of `c`, if it has one. */
  function FirstIndex(text: string, c: char): (i: Option<nat>)
    ensures i.None? <==> c !in text
    ensures i.Some? ==> i.value < |text| && text[i.value] == c && c !in text[..i.value]
  {
    if text == "" then None
    else if text[0] == c then Some(0)
    else
      var rest := FirstIndex(text[1..], c);
      assert text == [text[0]] + text[1..];
      if rest.None? then None
      else
        assert text[..rest.value + 1] == [text[0]] + text[1..][..rest.value];
        Some(rest.value + 1)
  }

  lemma FirstIndexIs(text: string, c: char, i: nat)
    requires i < |text| && text[i] == c && c !in text[..i]
    ensures FirstIndex(text, c) == Some(i)
  {
    var j := FirstIndex(text, c).value;
    assert forall k: nat :: k < i ==> text[k] == text[..i][k];
    assert forall k: nat :: k < j ==> text[k] == text[..j][k];
  }

  method Verify(key: CsrfKey, session: Bytes32, presented: seq<string>) returns (r: Result<(), CsrfRejection>)
    ensures |presented| == 0 ==> r == Err(Absent)
    ensures |presented| > 1 ==> r == Err(Duplicated)
    ensures |presented| == 1 ==> r == Verdict(key, session, presented[0])
  {
    if |presented| != 1 {
      return Err(if |presented| == 0 then Absent else Duplicated);
    }
    var token := presented[0];
    var cut := FirstIndex(token, '.');
    if cut.None? {
      return Err(Malformed);
    }
    var macHex, randomHex := token[..cut.value], token[cut.value + 1..];
    var presentedMac := Decode(32, macHex);
    if presentedMac.None? {
      return Err(Malformed);
    }
    var random := Decode(32, randomHex);
    if random.None? {
      return Err(Malformed);
    }
    var sessionHex := Encode(session);
    if key.mac(Message(sessionHex, randomHex)) == presentedMac.value {
      return Ok(());
    }
    return Err(Mismatched);
  }

  predicate WellFormed(token: string) {
    var cut := FirstIndex(token, '.');
    cut.Some? && Unhex(32, token[..cut.value]).Some? && Unhex(32, token[cut.value + 1..]).Some?
  }

  function Verdict(key: CsrfKey, session: Bytes32, token: string): Result<(), CsrfRejection> {
    if !WellFormed(token) then Err(Malformed)
    else
      var cut := FirstIndex(token, '.').value;
      if key.mac(Message(HexOf(session), token[cut + 1..])) == Unhex(32, token[..cut]).value then Ok(())
      else Err(Mismatched)
  }

  lemma DotIsNotHex(text: string)
    requires IsHex(text)
    ensures '.' !in text
  {
  }

  /** A well-formed token is two 32-byte values in hex with a dot between, and nothing else is. */
  lemma WellFormedIsTwoHexHalves(token: string, mac: Bytes32, random: Bytes32)
    ensures token == HexOf(mac) + "." + HexOf(random) <==>
      WellFormed(token)
      && Unhex(32, token[..FirstIndex(token, '.').value]) == Some(mac)
      && Unhex(32, token[FirstIndex(token, '.').value + 1..]) == Some(random)
  {
    if token == HexOf(mac) + "." + HexOf(random) {
      HexIsHex(mac);
      DotIsNotHex(HexOf(mac));
      var cut := |HexOf(mac)|;
      FirstIndexIs(token, '.', cut);
      assert token[..cut] == HexOf(mac) && token[cut + 1..] == HexOf(random);
      UnhexInvertsHex(mac);
      UnhexInvertsHex(random);
    } else if WellFormed(token) {
      var cut := FirstIndex(token, '.').value;
      OneSpelling(32, token[..cut], mac);
      OneSpelling(32, token[cut + 1..], random);
      assert token == token[..cut] + "." + token[cut + 1..];
    }
  }

  /**
   * One presented token is accepted exactly when it is what `Issue` renders for this key, this session and some
   * random value.
   */
  lemma AcceptedIsIssued(key: CsrfKey, session: Bytes32, token: string)
    ensures Verdict(key, session, token) == Ok(()) <==> exists random: Bytes32 :: token == Token(key, session, random)
  {
    if WellFormed(token) {
      var cut := FirstIndex(token, '.').value;
      HexInvertsUnhex(32, token[..cut]);
      HexInvertsUnhex(32, token[cut + 1..]);
      var mac: Bytes32, random: Bytes32 := Unhex(32, token[..cut]).value, Unhex(32, token[cut + 1..]).value;
      WellFormedIsTwoHexHalves(token, mac, random);
      if Verdict(key, session, token) == Ok(()) {
        assert token == Token(key, session, random);
      }
    }
    forall random: Bytes32 | token == Token(key, session, random)
      ensures Verdict(key, session, token) == Ok(())
    {
      var mac := key.mac(Message(HexOf(session), HexOf(random)));
      WellFormedIsTwoHexHalves(token, mac, random);
      OneSpelling(32, token[FirstIndex(token, '.').value + 1..], random);
    }
  }

  /** The rendering of a MAC and a random value, with a dot between. */
  predicate IsRendered(token: string, mac: Bytes32, random: Bytes32) {
    token == HexOf(mac) + "." + HexOf(random)
  }

  /**
   * Each refusal of one token, exactly: it is malformed if it renders no MAC and random value; and it mismatches if
   * the MAC it renders is not that of the session's digest and the random value, each 64 characters long.
   */
  lemma RefusalsAreExactly(key: CsrfKey, session: Bytes32, token: string)
    ensures Verdict(key, session, token) == Err(Malformed) <==>
      forall mac: Bytes32, random: Bytes32 :: !IsRendered(token, mac, random)
    ensures Verdict(key, session, token) == Err(Mismatched) <==>
      exists mac: Bytes32, random: Bytes32 :: IsRendered(token, mac, random)
        && mac != key.mac("64!" + HexOf(session) + "!64!" + HexOf(random))
  {
    if WellFormed(token) {
      var mac, random := Halves(token);
      assert IsRendered(token, mac, random);
    }
    forall mac: Bytes32, random: Bytes32 | IsRendered(token, mac, random)
      ensures Verdict(key, session, token)
        == if mac == key.mac("64!" + HexOf(session) + "!64!" + HexOf(random)) then Ok(()) else Err(Mismatched)
    {
      WellFormedIsTwoHexHalves(token, mac, random);
      OneSpelling(32, token[FirstIndex(token, '.').value + 1..], random);
      MessageOfDigests(session, random);
    }
  }

  lemma Halves(token: string) returns (mac: Bytes32, random: Bytes32)
    requires WellFormed(token)
    ensures IsRendered(token, mac, random)
  {
    var cut := FirstIndex(token, '.').value;
    HexInvertsUnhex(32, token[..cut]);
    HexInvertsUnhex(32, token[cut + 1..]);
    mac, random := Unhex(32, token[..cut]).value, Unhex(32, token[cut + 1..]).value;
    assert token == token[..cut] + "." + token[cut + 1..];
  }

  /** The message a MAC is taken of: the session's digest and then the random value, each after its length. */
  lemma MessageOfDigests(session: Bytes32, random: Bytes32)
    ensures Message(HexOf(session), HexOf(random)) == "64!" + HexOf(session) + "!64!" + HexOf(random)
  {
    HexIsHex(session);
    HexIsHex(random);
    assert Decimal(6) == "6" && Decimal(64) == "64";
    var s, r := HexOf(session), HexOf(random);
    assert "!" + ("64" + "!" + r) == "!64!" + r;
  }

  // ---- The message is unambiguous ----------------------------------------------------------------

  predicate IsDigits(text: string) {
    forall i :: 0 <= i < |text| ==> '0' <= text[i] <= '9'
  }

  lemma {:induction false} DecimalIsDigits(n: nat)
    ensures IsDigits(Decimal(n))
  {
    if n >= 10 {
      DecimalIsDigits(n / 10);
    }
  }

  lemma {:induction false} DecimalInjective(m: nat, n: nat)
    requires Decimal(m) == Decimal(n)
    ensures m == n
  {
    var a, b := Decimal(m), Decimal(n);
    assert a[|a| - 1] == b[|b| - 1];
    assert m % 10 == n % 10;
    if m >= 10 && n >= 10 {
      assert Decimal(m / 10) == a[..|a| - 1] && Decimal(n / 10) == b[..|b| - 1];
      DecimalInjective(m / 10, n / 10);
    } else {
      assert |a| == 1 <==> m < 10;
      assert |b| == 1 <==> n < 10;
    }
  }

  /** A length, a `!` and that many characters can be read off the front in only one way. */
  lemma DelimitedInjective(s: string, rest: string, s': string, rest': string)
    requires Decimal(|s|) + "!" + (s + rest) == Decimal(|s'|) + "!" + (s' + rest')
    ensures s == s' && rest == rest'
  {
    DecimalIsDigits(|s|);
    DecimalIsDigits(|s'|);
    CutAtFirst(Decimal(|s|), Decimal(|s'|), s + rest, s' + rest', '!');
    DecimalInjective(|s|, |s'|);
    assert s == (s + rest)[..|s|] && s' == (s' + rest')[..|s'|];
    assert rest == (s + rest)[|s|..] && rest' == (s' + rest')[|s'|..];
  }

  lemma MessageSplits(s: string, r: string)
    ensures Message(s, r) == Decimal(|s|) + "!" + (s + ("!" + Delimited(r)))
  {
    Regroup(Decimal(|s|) + "!", s, "!", Delimited(r));
  }

  /** Distinct pairs of strings make distinct messages, whatever characters they contain. */
  lemma MessageIsInjective(s: string, r: string, s': string, r': string)
    ensures Message(s, r) == Message(s', r') <==> s == s' && r == r'
  {
    if Message(s, r) == Message(s', r') {
      MessageSplits(s, r);
      MessageSplits(s', r');
      DelimitedInjective(s, "!" + Delimited(r), s', "!" + Delimited(r'));
      assert Delimited(r) == ("!" + Delimited(r))[1..] && Delimited(r') == ("!" + Delimited(r'))[1..];
      assert r + "" == r && r' + "" == r';
      DelimitedInjective(r, "", r', "");
    }
  }

  /**
   * Rotating a session or a key retires its tokens: one is accepted elsewhere only if the MACs of the two
   * messages agree, and for two sessions those messages are different.
   */
  lemma TokensAreBoundToTheirSession(key: CsrfKey, session: Bytes32, random: Bytes32, key': CsrfKey, session': Bytes32)
    ensures Verdict(key', session', Token(key, session, random)) == Ok(()) <==>
      key'.mac(Message(HexOf(session'), HexOf(random))) == key.mac(Message(HexOf(session), HexOf(random)))
    ensures session != session' ==>
      Message(HexOf(session), HexOf(random)) != Message(HexOf(session'), HexOf(random))
  {
    var token := Token(key, session, random);
    WellFormedIsTwoHexHalves(token, key.mac(Message(HexOf(session), HexOf(random))), random);
    OneSpelling(32, token[FirstIndex(token, '.').value + 1..], random);
    if session != session' {
      UnhexInvertsHex(session);
      UnhexInvertsHex(session');
      MessageIsInjective(HexOf(session), HexOf(random), HexOf(session'), HexOf(random));
    }
  }
}
