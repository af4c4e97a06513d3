/** `codec/decode_and_format_json.py`: repair missing Base64 padding, decode,
    read the bytes as UTF-8 JSON and pretty-print it; every failure becomes
    a string starting "Error: ". JSON reading and printing are parameters. */
module DecodeJson {
  import opened Strings
  import opened Bytes
  import Utf8
  import Base64

  /** What `json.loads` does with a text: a value, or the exception's message. */
  datatype Parse<J> = Parsed(value: J) | Malformed(message: string)

  function Pads(n: nat): (r: string)
    ensures |r| == n && forall i :: 0 <= i < n ==> r[i] == '='
  {
    seq(n, _ => '=')
  }

  /** The padding repair: append '=' until the length is a multiple of four. */
  function RepairPadding(s: string): (r: string)
    ensures |r| % 4 == 0
    ensures |s| <= |r| < |s| + 4 && r[..|s|] == s
    ensures forall i :: |s| <= i < |r| ==> r[i] == '='
  {
    var missing := |s| % 4;
    if missing != 0 then s + Pads(4 - missing) else s
  }

  /** An error string: "Error: " followed by the exception's message. */
  predicate IsError(r: string)
  {
    |r| >= 7 && r[..7] == "Error: "
  }

  /** The bytes behind `s` once its padding is repaired, if it decodes. */
  function DecodedBytes(s: string): Option<seq<byte>>
  {
    match Base64.Decode(RepairPadding(s))
    case Failed(_) => None
    case Ok(b) => Some(b)
  }

  /** The JSON text behind `s`: Base64 then UTF-8 both succeed. */
  function DecodedText(s: string): Option<string>
  {
    match DecodedBytes(s)
    case None => None
    case Some(b) => Utf8.Decode(b)
  }

  /** `decode_base64_to_json(s)`. `loads` and `dumps` stand for the JSON
      library; `utf8Error` gives the message of the `UnicodeDecodeError`
      raised for bytes that are not UTF-8. */
  function DecodeBase64ToJson<J>(s: string, loads: string -> Parse<J>, dumps: J -> string,
                                 utf8Error: seq<byte> -> string): (r: string)
    ensures DecodedText(s).Some? && loads(DecodedText(s).value).Parsed? ==>
      r == dumps(loads(DecodedText(s).value).value)
    ensures !(DecodedText(s).Some? && loads(DecodedText(s).value).Parsed?) ==> IsError(r)
    ensures DecodedBytes(s).None? ==> r == "Error: " + Base64.Decode(RepairPadding(s)).message
  {
    match Base64.Decode(RepairPadding(s))
    case Failed(m) => "Error: " + m
    case Ok(b) =>
      match Utf8.Decode(b)
      case None => "Error: " + utf8Error(b)
      case Some(text) =>
        match loads(text)
        case Malformed(m) => "Error: " + m
        case Parsed(v) => dumps(v)
  }

  /** Since `json.dumps` of a parsed document never starts with "Error: "
      (its output opens with a JSON token), the result is an error exactly when one of the three
      stages fails, and otherwise it is the re-dumped document. */
  lemma ErrorExactlyOnFailure<J>(s: string, loads: string -> Parse<J>, dumps: J -> string,
                                 utf8Error: seq<byte> -> string)
    requires forall t :: loads(t).Parsed? ==> !IsError(dumps(loads(t).value))
    ensures IsError(DecodeBase64ToJson(s, loads, dumps, utf8Error)) <==>
      DecodedBytes(s).None? || DecodedText(s).None? || loads(DecodedText(s).value).Malformed?
  {
    var r := DecodeBase64ToJson(s, loads, dumps, utf8Error);
    if DecodedText(s).Some? && loads(DecodedText(s).value).Parsed? {
      assert r == dumps(loads(DecodedText(s).value).value);
    }
  }

  /** A string already a multiple of four long is left alone. */
  lemma RepairKeepsAligned(s: string)
    requires |s| % 4 == 0
    ensures RepairPadding(s) == s
  {
  }

  /** Repairing exactly restores the padding that was stripped from an
      encoder's output. */
  lemma RepairRestoresPadding(b: seq<byte>)
    ensures RepairPadding(TrimEnd(Base64.Encode(b), Base64.IsPad)) == Base64.Encode(b)
  {
    var e := Base64.Encode(b);
    var k := (|b| + 2) / 3;
    assert |e| == 4 * k;
    assert |b| > 0 ==> k >= 1;
    RepairAfterTrim(e, Base64.PadCount(|b|));
  }

  lemma RepairAfterTrim(e: string, p: nat)
    requires |e| % 4 == 0 && p <= 2 && p <= |e|
    requires forall i :: 0 <= i < |e| ==> (e[i] == '=' <==> i >= |e| - p)
    ensures RepairPadding(TrimEnd(e, Base64.IsPad)) == e
  {
    var body, pads := e[..|e| - p], e[|e| - p..];
    TrimPadding(e, p);
    BodyLength(|e|, p);
    RepairAppends(body, p);
    PadsAtEnd(e, p);
    assert e == body + pads;
  }

  lemma BodyLength(n: nat, p: nat)
    requires n % 4 == 0 && p <= 2 && p <= n
    ensures (n - p) % 4 == (4 - p) % 4
  {
  }

  lemma PadsAtEnd(e: string, p: nat)
    requires p <= |e|
    requires forall i :: 0 <= i < |e| ==> (e[i] == '=' <==> i >= |e| - p)
    ensures e[|e| - p..] == Pads(p)
  {
    var pads := e[|e| - p..];
    assert forall i :: 0 <= i < p ==> pads[i] == e[|e| - p + i];
  }

  lemma TrimPadding(e: string, p: nat)
    requires p <= |e|
    requires forall i :: 0 <= i < |e| ==> (e[i] == '=' <==> i >= |e| - p)
    ensures TrimEnd(e, Base64.IsPad) == e[..|e| - p]
  {
    var body, pads := e[..|e| - p], e[|e| - p..];
    assert e == body + pads;
    assert forall i :: 0 <= i < |pads| ==> Base64.IsPad(pads[i]);
    assert body != [] ==> !Base64.IsPad(body[|body| - 1]);
    TrimEndSuffix(body, pads, Base64.IsPad);
  }

  lemma RepairAppends(body: string, p: nat)
    requires |body| % 4 == (4 - p) % 4 && p <= 2
    ensures RepairPadding(body) == body + Pads(p)
  {
  }

  /** End to end: a JSON text that went through UTF-8 and Base64, with or
      without its padding, comes out as the formatted document. */
  lemma EncodedJsonDecodes<J>(text: string, loads: string -> Parse<J>, dumps: J -> string,
                              utf8Error: seq<byte> -> string)
    ensures var e := Base64.Encode(Utf8.Encode(text));
            var expected := match loads(text) case Parsed(v) => dumps(v) case Malformed(m) => "Error: " + m;
            && DecodeBase64ToJson(e, loads, dumps, utf8Error) == expected
            && DecodeBase64ToJson(TrimEnd(e, Base64.IsPad), loads, dumps, utf8Error) == expected
  {
    var b := Utf8.Encode(text);
    var e := Base64.Encode(b);
    RepairRestoresPadding(b);
    Base64.DecodeEncode(b);
    Utf8.DecodeEncode(text);
  }

  /** Alphabet-only input one character longer than a multiple of four gets
      three '=' and still cannot be decoded: the result is an error string. */
  lemma OneOverIsError<J>(s: string, loads: string -> Parse<J>, dumps: J -> string,
                          utf8Error: seq<byte> -> string)
    requires |s| % 4 == 1
    requires forall i :: 0 <= i < |s| ==> Base64.InAlphabet(s[i])
    ensures var r := DecodeBase64ToJson(s, loads, dumps, utf8Error);
            |r| >= 7 && r[..7] == "Error: "
  {
    assert RepairPadding(s) == s + Pads(3);
    Base64.DecodeOneOver(s, 3);
  }
}
