/** `credential/basic_auth.py`: the HTTP Basic credential of RFC 7617
    section 2, `user-id ":" password`, UTF-8 encoded and then Base64 encoded. */
module BasicAuth {
  import opened Strings
  import opened Bytes
  import Utf8
  import Base64

  /** The dataclass holding the two parts; both default to the empty string. */
  datatype Credentials = Credentials(key: string, secret: string)

  const DefaultCredentials: Credentials := Credentials("", "")

  /** The text that gets encoded. */
  function CredentialText(key: string, secret: string): (t: string)
    ensures |t| == |key| + 1 + |secret|
    ensures t[..|key|] == key && t[|key|] == ':' && t[|key| + 1..] == secret
  {
    key + ":" + secret
  }

  /** `get_basic_auth(key, secret)`. */
  function GetBasicAuth(key: string, secret: string): (r: string)
    ensures var n := |Utf8.Encode(CredentialText(key, secret))|;
            |r| == 4 * ((n + 2) / 3)
    ensures forall i :: 0 <= i < |r| ==> r[i] == '=' || Base64.InAlphabet(r[i])
    ensures forall i :: 0 <= i < |r| ==> (r[i] == '=' <==> i >= |r| - Base64.PadCount(|Utf8.Encode(CredentialText(key, secret))|))
  {
    Base64.Encode(Utf8.Encode(CredentialText(key, secret)))
  }

  /** Decoding the header value gives back exactly the UTF-8 bytes of
      `key:secret`, and those bytes decode to the text itself. */
  lemma GetBasicAuthRoundTrip(key: string, secret: string)
    ensures Base64.Decode(GetBasicAuth(key, secret)) == Base64.Ok(Utf8.Encode(CredentialText(key, secret)))
    ensures Utf8.Decode(Utf8.Encode(CredentialText(key, secret))) == Some(CredentialText(key, secret))
  {
    Base64.DecodeEncode(Utf8.Encode(CredentialText(key, secret)));
    Utf8.DecodeEncode(CredentialText(key, secret));
  }

  /** When the key holds no colon, as RFC 7617 requires of a user-id, the
      receiver splits the decoded text back into key and secret at the first colon. */
  lemma CredentialSplit(key: string, secret: string)
    requires ':' !in key
    ensures SplitOnce(CredentialText(key, secret), ':') == (key, secret)
  {
    var t := CredentialText(key, secret);
    SplitOnceAt(t, ':', |key|);
  }

  /** The default credentials encode the lone colon. */
  lemma DefaultCredentialsEncoding()
    ensures GetBasicAuth(DefaultCredentials.key, DefaultCredentials.secret) == "Og=="
  {
    var t := CredentialText("", "");
    assert t == [':'];
    assert Utf8.Encode(t) == [58 as byte];
    assert Base64.Sym(14) == 'O' && Base64.Sym(32) == 'g';
  }
}
