/** Signed cookie values: `base64(value) "--" hex(HMAC(key, name NUL payload))`, verified against a
    ring of keys.  HMAC-SHA256 is any function of key and message with 32-byte tags. */
module SignedCookie {
  import opened Text
  import opened Codec

  type Mac = (Str, Str) -> Str

  const TAG_SIZE := 32
  const DASH: byte := Ascii('-')
  const DELIMITER: Str := [DASH, DASH]

  ghost predicate HasFixedTags(mac: Mac) {
    forall key, message :: |mac(key, message)| == TAG_SIZE
  }

  // ---- building a signer -------------------------------------------------

  datatype Signer = Signer(cookieName: Str, keys: seq<Str>)

  datatype ConfigError = NameRequired | PrimaryRequired | EmptyFallback(index: nat)

  /** `NewHMACCookieSigner`: the ring is the primary key followed by the fallbacks, none of them empty. */
  method NewSigner(cookieName: Str, primary: Str, fallbacks: seq<Str>) returns (r: Result<Signer, ConfigError>)
    ensures r.Ok? <==> cookieName != [] && primary != [] && [] !in fallbacks
    ensures r.Ok? ==> r.value == Signer(cookieName, [primary] + fallbacks)
    ensures r.Err? && r.error.NameRequired? ==> cookieName == []
    ensures r.Err? && r.error.PrimaryRequired? ==> cookieName != [] && primary == []
    ensures r.Err? && r.error.EmptyFallback? ==>
              var i := r.error.index;
              cookieName != [] && primary != [] && i < |fallbacks| && fallbacks[i] == [] && [] !in fallbacks[..i]
  {
    if cookieName == [] {
      return Err(NameRequired);
    }
    if primary == [] {
      return Err(PrimaryRequired);
    }
    var keys := new Str[1 + |fallbacks|](_ => []);
    keys[0] := primary;
    for i := 0 to |fallbacks|
      invariant keys[..i + 1] == [primary] + fallbacks[..i]
      invariant [] !in fallbacks[..i]
    {
      if fallbacks[i] == [] {
        return Err(EmptyFallback(i));
      }
      keys[i + 1] := fallbacks[i];
      assert keys[..i + 2] == keys[..i + 1] + [fallbacks[i]];
      assert fallbacks[..i + 1] == fallbacks[..i] + [fallbacks[i]];
    }
    assert fallbacks[..|fallbacks|] == fallbacks;
    assert keys[..] == keys[..|fallbacks| + 1];
    r := Ok(Signer(cookieName, keys[..]));
  }

  // ---- signing and verifying ---------------------------------------------

  /** What is authenticated. */
  function Message(name: Str, payload: Str): Str {
    name + [0] + payload
  }

  /** `signValue`. */
  function SignValue(mac: Mac, name: Str, key: Str, value: Str): Str {
    var payload := Base64Encode(value);
    payload + DELIMITER + HexEncode(mac(key, Message(name, payload)))
  }

  datatype VerifyError =
    | MissingDelimiter | EmptySignature | SignatureNotHex | WrongLength
    | InvalidSignature | InvalidBase64

  predicate SignedBySome(mac: Mac, keys: seq<Str>, name: Str, payload: Str, tag: Str) {
    exists key :: key in keys && mac(key, Message(name, payload)) == tag
  }

  function VerifyParts(mac: Mac, payload: Str, signature: Str, name: Str, keys: seq<Str>): Result<Str, VerifyError> {
    if signature == [] then Err(EmptySignature)
    else
      match HexDecode(signature)
      case None => Err(SignatureNotHex)
      case Some(tag) =>
        if |tag| != TAG_SIZE then Err(WrongLength)
        else if !SignedBySome(mac, keys, name, payload, tag) then Err(InvalidSignature)
        else
          match Base64Decode(payload)
          case None => Err(InvalidBase64)
          case Some(raw) => Ok(raw)
  }

  /** What `verifySignedValue` returns. */
  function VerifyValue(mac: Mac, text: Str, name: Str, keys: seq<Str>): Result<Str, VerifyError> {
    match IndexOf(text, DELIMITER)
    case None => Err(MissingDelimiter)
    case Some(i) => VerifyParts(mac, text[..i], text[i + 2..], name, keys)
  }

  method VerifySignedValue(mac: Mac, text: Str, name: Str, keys: seq<Str>) returns (r: Result<Str, VerifyError>)
    ensures r == VerifyValue(mac, text, name, keys)
  {
    var cut := IndexOf(text, DELIMITER);
    if cut.None? {
      return Err(MissingDelimiter);
    }
    var payload, signature := text[..cut.value], text[cut.value + 2..];
    if signature == [] {
      return Err(EmptySignature);
    }
    var tag := HexDecode(signature);
    if tag.None? {
      return Err(SignatureNotHex);
    }
    if |tag.value| != TAG_SIZE {
      return Err(WrongLength);
    }
    var validSignature := false;
    for i := 0 to |keys|
      invariant !validSignature
      invariant forall key :: key in keys[..i] ==> mac(key, Message(name, payload)) != tag.value
    {
      var want := mac(keys[i], Message(name, payload));
      if want == tag.value {
        validSignature := true;
        break;
      }
      assert keys[..i + 1] == keys[..i] + [keys[i]];
    }
    assert keys[..|keys|] == keys;
    if !validSignature {
      return Err(InvalidSignature);
    }
    var raw := Base64Decode(payload);
    if raw.None? {
      return Err(InvalidBase64);
    }
    r := Ok(raw.value);
  }

  // ---- guarantees --------------------------------------------------------

  /** A payload without dashes ends exactly at the first delimiter. */
  lemma CutAtFirstDelimiter(payload: Str, rest: Str)
    requires DASH !in payload
    ensures IndexOf(payload + DELIMITER + rest, DELIMITER) == Some(|payload|)
  {
    var text := payload + DELIMITER + rest;
    assert text[|payload|..|payload| + 2] == DELIMITER;
    assert OccursAt(text, DELIMITER, |payload|);
    forall j: nat | j < |payload|
      ensures !OccursAt(text, DELIMITER, j)
    {
      assert text[j] == payload[j];
      assert j + 2 <= |text| ==> text[j..j + 2][0] == payload[j];
    }
  }

  lemma NoDashInBase64(value: Str)
    ensures DASH !in Base64Encode(value)
  {
    EncodeAlphabet(value);
  }

  /** A signed value is cut into its payload and its hex tag. */
  lemma SignedParts(mac: Mac, name: Str, key: Str, value: Str)
    ensures var payload, text := Base64Encode(value), SignValue(mac, name, key, value);
            && IndexOf(text, DELIMITER) == Some(|payload|)
            && text[..|payload|] == payload
            && text[|payload| + 2..] == HexEncode(mac(key, Message(name, payload)))
  {
    hide Base64Encode, HexEncode, IndexOf, Message;
    NoDashInBase64(value);
    CutAtFirstDelimiter(Base64Encode(value), HexEncode(mac(key, Message(name, Base64Encode(value)))));
  }

  /** Whatever the value, a value signed with any key of the ring verifies and comes back unchanged. */
  lemma SignVerify(mac: Mac, name: Str, key: Str, value: Str, keys: seq<Str>)
    requires HasFixedTags(mac) && key in keys
    ensures VerifyValue(mac, SignValue(mac, name, key, value), name, keys) == Ok(value)
  {
    var payload := Base64Encode(value);
    var tag := mac(key, Message(name, payload));
    var text := SignValue(mac, name, key, value);
    SignedParts(mac, name, key, value);
    HexRoundTrip(tag);
    Base64RoundTrip(value);
  }

  /** `cookie-octet` of section 4.1.1 of RFC 6265. */
  predicate CookieOctet(c: byte) {
    c == 0x21 || 0x23 <= c <= 0x2B || 0x2D <= c <= 0x3A || 0x3C <= c <= 0x5B || 0x5D <= c <= 0x7E
  }

  lemma SignedValueIsCookieValue(mac: Mac, name: Str, key: Str, value: Str)
    ensures forall c :: c in SignValue(mac, name, key, value) ==> CookieOctet(c)
  {
    EncodeAlphabet(value);
    var payload := Base64Encode(value);
    var hex := HexEncode(mac(key, Message(name, payload)));
    forall c | c in payload + DELIMITER + hex
      ensures CookieOctet(c)
    {
      assert c in payload || c in DELIMITER || c in hex;
    }
  }

  /** An accepted value stays accepted, with the same result, under every ring that has the old keys. */
  lemma LargerRingAgrees(mac: Mac, text: Str, name: Str, keys: seq<Str>, ring: seq<Str>)
    requires VerifyValue(mac, text, name, keys).Ok?
    requires forall key :: key in keys ==> key in ring
    ensures VerifyValue(mac, text, name, ring) == VerifyValue(mac, text, name, keys)
  {
  }

  /** Order and repetition of the keys never matter, for rejected values either. */
  lemma RingIsASet(mac: Mac, text: Str, name: Str, keys: seq<Str>, ring: seq<Str>)
    requires forall key :: key in keys <==> key in ring
    ensures VerifyValue(mac, text, name, ring) == VerifyValue(mac, text, name, keys)
  {
  }

  /** Two dashes begin at `i` and nowhere before. */
  ghost predicate DashesFirstAt(text: Str, i: nat) {
    && i + 2 <= |text| && text[i] == text[i + 1] == 0x2D
    && forall j :: 0 <= j < i ==> !(text[j] == 0x2D && text[j + 1] == 0x2D)
  }

  lemma DashesAt(text: Str, j: nat)
    ensures OccursAt(text, DELIMITER, j) <==> j + 2 <= |text| && text[j] == text[j + 1] == 0x2D
  {
    if j + 2 <= |text| {
      assert text[j..j + 2] == [text[j], text[j + 1]];
    }
  }

  /** The cut of `VerifyValue` in plain terms. */
  lemma CutIs(text: Str)
    ensures IndexOf(text, DELIMITER).None? <==>
            forall j :: 0 <= j < |text| - 1 ==> !(text[j] == 0x2D && text[j + 1] == 0x2D)
    ensures forall i: nat :: IndexOf(text, DELIMITER) == Some(i) <==> DashesFirstAt(text, i)
  {
    var cut := IndexOf(text, DELIMITER);
    forall j | 0 <= j < |text| - 1 && (cut.None? || j < cut.value)
      ensures !(text[j] == 0x2D && text[j + 1] == 0x2D)
    {
      DashesAt(text, j);
    }
    if cut.Some? {
      DashesAt(text, cut.value);
    }
    forall i: nat | DashesFirstAt(text, i)
      ensures cut == Some(i)
    {
      DashesAt(text, i);
    }
  }

  /** Exactly which texts are accepted: payload, delimiter and the hex tag that some ring key gives to the
      name, a NUL byte and the payload. */
  lemma AcceptedExactly(mac: Mac, text: Str, name: Str, keys: seq<Str>, value: Str)
    requires HasFixedTags(mac)
    ensures VerifyValue(mac, text, name, keys) == Ok(value) <==>
            exists i: nat :: Accepts(mac, text, name, keys, value, i)
  {
    hide IndexOf, DashesFirstAt, HexDecode, Base64Decode;
    CutIs(text);
    var cut := IndexOf(text, DELIMITER);
    if VerifyValue(mac, text, name, keys) == Ok(value) {
      assert Accepts(mac, text, name, keys, value, cut.value);
    }
    if i: nat :| Accepts(mac, text, name, keys, value, i) {
      assert cut == Some(i);
      NotEmptyTag(text[i + 2..]);
    }
  }

  lemma NotEmptyTag(signature: Str)
    requires HexDecode(signature).Some? && |HexDecode(signature).value| == TAG_SIZE
    ensures signature != []
  {
  }

  ghost predicate Accepts(mac: Mac, text: Str, name: Str, keys: seq<Str>, value: Str, i: nat) {
    && DashesFirstAt(text, i)
    && Base64Decode(text[..i]) == Some(value)
    && exists key :: key in keys && HexDecode(text[i + 2..]) == Some(mac(key, name + [0] + text[..i]))
  }

  /** Exactly which texts give which error, given where the first two dashes are. */
  lemma RejectedExactly(mac: Mac, text: Str, name: Str, keys: seq<Str>)
    ensures var r := VerifyValue(mac, text, name, keys);
            && (r == Err(MissingDelimiter) <==>
                  forall j :: 0 <= j < |text| - 1 ==> !(text[j] == 0x2D && text[j + 1] == 0x2D))
            && forall i: nat :: DashesFirstAt(text, i) ==>
                 var tag := HexDecode(text[i + 2..]);
                 var signed := tag.Some? && exists key :: key in keys && mac(key, name + [0] + text[..i]) == tag.value;
                 && (r == Err(EmptySignature) <==> |text| == i + 2)
                 && (r == Err(SignatureNotHex) <==> |text| > i + 2 && tag.None?)
                 && (r == Err(WrongLength) <==> |text| > i + 2 && tag.Some? && |tag.value| != 32)
                 && (r == Err(InvalidSignature) <==> |text| > i + 2 && tag.Some? && |tag.value| == 32 && !signed)
                 && (r == Err(InvalidBase64) <==>
                       |text| > i + 2 && signed && |tag.value| == 32 && Base64Decode(text[..i]).None?)
  {
    hide IndexOf, DashesFirstAt, HexDecode, Base64Decode;
    CutIs(text);
    if IndexOf(text, DELIMITER).Some? {
      assert DashesFirstAt(text, IndexOf(text, DELIMITER).value);
    }
  }

  /** The bytes of a signed value: base64, two dashes, and in lower-case hex the tag of the name, a NUL byte
      and the base64 text. */
  lemma SignedBytes(mac: Mac, name: Str, key: Str, value: Str)
    ensures var payload := Base64Encode(value);
            SignValue(mac, name, key, value) == payload + [0x2D, 0x2D] + HexEncode(mac(key, name + [0] + payload))
  {
    hide Base64Encode, HexEncode;
  }

  /** Name and payload can be read back from the authenticated bytes, so no two of them collide. */
  lemma MessageInjective(name: Str, payload: Str, name': Str, payload': Str)
    requires 0 !in payload && 0 !in payload'
    requires name + [0] + payload == name' + [0] + payload'
    ensures name == name' && payload == payload'
  {
    var m := name + [0] + payload;
    assert forall i :: |name| < i < |m| ==> m[i] == payload[i - |name| - 1];
    assert forall i :: |name'| < i < |m| ==> m[i] == payload'[i - |name'| - 1];
    assert m[|name|] == 0 && m[|name'|] == 0;
    assert m[..|name|] == name && m[|name| + 1..] == payload;
    assert m[..|name'|] == name' && m[|name'| + 1..] == payload';
  }

  /** A value signed under one cookie name verifies under another only if the tags collide. */
  lemma NamesAreBound(mac: Mac, name: Str, other: Str, key: Str, value: Str, keys: seq<Str>)
    requires HasFixedTags(mac) && name != other
    ensures VerifyValue(mac, SignValue(mac, name, key, value), other, keys).Ok? <==>
            exists k :: k in keys && mac(k, other + [0] + Base64Encode(value))
                                   == mac(key, name + [0] + Base64Encode(value))
    ensures other + [0] + Base64Encode(value) != name + [0] + Base64Encode(value)
  {
    hide Base64Encode;
    var payload := Base64Encode(value);
    NoNulInBase64(value);
    if other + [0] + payload == name + [0] + payload {
      MessageInjective(other, payload, name, payload);
    }
    VerifyOfSigned(mac, name, other, key, value, keys);
  }

  lemma NoNulInBase64(value: Str)
    ensures 0 !in Base64Encode(value)
  {
    EncodeAlphabet(value);
  }

  /** A signed value is accepted under any name for which some ring key gives the same tag. */
  lemma VerifyOfSigned(mac: Mac, name: Str, other: Str, key: Str, value: Str, keys: seq<Str>)
    requires HasFixedTags(mac)
    ensures VerifyValue(mac, SignValue(mac, name, key, value), other, keys).Ok? <==>
            SignedBySome(mac, keys, other, Base64Encode(value), mac(key, Message(name, Base64Encode(value))))
  {
    var tag := mac(key, Message(name, Base64Encode(value)));
    assert |tag| == TAG_SIZE;
    hide Base64Encode, Message, Base64Decode, HexDecode, HexEncode, HasFixedTags, SignValue, IndexOf, SignedBySome;
    SignedParts(mac, name, key, value);
    HexRoundTrip(tag);
    Base64RoundTrip(value);
  }
}
