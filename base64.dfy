/** Base64 as RFC 4648 section 4 defines it: the encoder behind
    `base64.b64encode`, and the decoder behind `base64.b64decode` with its
    default, non-validating behaviour (CPython's `binascii.a2b_base64`). */
module Base64 {
  import opened Strings
  import opened Bytes

  /** The character of a 6-bit value in the standard alphabet. */
  function Sym(v: nat): (c: char)
    requires v < 64
  {
    if v < 26 then ('A' as int + v) as char
    else if v < 52 then ('a' as int + (v - 26)) as char
    else if v < 62 then ('0' as int + (v - 52)) as char
    else if v == 62 then '+'
    else '/'
  }

  /** The 6-bit value of an alphabet character; `None` for every other character. */
  function Value(c: char): (r: Option<nat>)
    ensures r.Some? ==> r.value < 64 && Sym(r.value) == c
  {
    if 'A' <= c <= 'Z' then Some(c as int - 'A' as int)
    else if 'a' <= c <= 'z' then Some(c as int - 'a' as int + 26)
    else if '0' <= c <= '9' then Some(c as int - '0' as int + 52)
    else if c == '+' then Some(62)
    else if c == '/' then Some(63)
    else None
  }

  predicate InAlphabet(c: char) { Value(c).Some? }

  /** The padding character. */
  predicate IsPad(c: char) { c == '=' }

  lemma ValueSym(v: nat)
    requires v < 64
    ensures Value(Sym(v)) == Some(v)
  {
  }

  /** Number of '=' characters the encoder appends for `n` input bytes. */
  function PadCount(n: nat): (p: nat)
    ensures p <= 2
  {
    (3 - n % 3) % 3
  }

  /** `base64.b64encode(b)` (decoded as ASCII). */
  function Encode(b: seq<byte>): (r: string)
    ensures |r| == 4 * ((|b| + 2) / 3)
    ensures forall i :: 0 <= i < |r| ==> (r[i] == '=' <==> i >= |r| - PadCount(|b|))
    ensures forall i :: 0 <= i < |r| ==> r[i] == '=' || InAlphabet(r[i])
  {
    if |b| == 0 then []
    else if |b| == 1 then
      var b0 := b[0] as nat;
      ValueSym(b0 / 4);
      ValueSym(b0 % 4 * 16);
      var r := [Sym(b0 / 4), Sym(b0 % 4 * 16), '=', '='];
      PaddedQuad(r, 1);
      r
    else if |b| == 2 then
      var b0, b1 := b[0] as nat, b[1] as nat;
      ValueSym(b0 / 4);
      ValueSym(b0 % 4 * 16 + b1 / 16);
      ValueSym(b1 % 16 * 4);
      var r := [Sym(b0 / 4), Sym(b0 % 4 * 16 + b1 / 16), Sym(b1 % 16 * 4), '='];
      PaddedQuad(r, 2);
      r
    else
      var g := Group(b[0], b[1], b[2]);
      var rest := Encode(b[3..]);
      GroupThenRest(g, rest, |b| - 3);
      g + rest
  }

  /** The last group for one or two leftover bytes: symbols, then the
      padding. */
  lemma PaddedQuad(r: string, n: nat)
    requires n == 1 || n == 2
    requires |r| == 4 && forall i :: 0 <= i < n + 1 ==> InAlphabet(r[i])
    requires forall i :: n + 1 <= i < 4 ==> r[i] == '='
    ensures |r| == 4 * ((n + 2) / 3)
    ensures forall i :: 0 <= i < |r| ==> (r[i] == '=' <==> i >= |r| - PadCount(n))
    ensures forall i :: 0 <= i < |r| ==> r[i] == '=' || InAlphabet(r[i])
  {
    assert !InAlphabet('=');
  }

  /** A full group in front keeps the padding at the end of the text. */
  lemma GroupThenRest(g: string, rest: string, n: nat)
    requires |g| == 4 && forall i :: 0 <= i < 4 ==> InAlphabet(g[i])
    requires |rest| == 4 * ((n + 2) / 3)
    requires forall i :: 0 <= i < |rest| ==> (rest[i] == '=' <==> i >= |rest| - PadCount(n))
    requires forall i :: 0 <= i < |rest| ==> rest[i] == '=' || InAlphabet(rest[i])
    ensures |g + rest| == 4 * ((n + 3 + 2) / 3)
    ensures forall i :: 0 <= i < |g + rest| ==> ((g + rest)[i] == '=' <==> i >= |g + rest| - PadCount(n + 3))
    ensures forall i :: 0 <= i < |g + rest| ==> (g + rest)[i] == '=' || InAlphabet((g + rest)[i])
  {
    assert PadCount(n + 3) == PadCount(n);
    assert (n + 3 + 2) / 3 == (n + 2) / 3 + 1;
    forall i | 0 <= i < |g + rest|
      ensures ((g + rest)[i] == '=' <==> i >= |g + rest| - PadCount(n + 3))
      ensures (g + rest)[i] == '=' || InAlphabet((g + rest)[i])
    {
      if i < 4 {
        assert InAlphabet(g[i]);
      } else {
        assert (g + rest)[i] == rest[i - 4];
      }
    }
  }

  /** The four characters of one complete three-byte group. */
  function Group(x: byte, y: byte, z: byte): (r: string)
    ensures |r| == 4 && forall i :: 0 <= i < 4 ==> InAlphabet(r[i])
  {
    var b0, b1, b2 := x as nat, y as nat, z as nat;
    ValueSym(b0 / 4);
    ValueSym(b0 % 4 * 16 + b1 / 16);
    ValueSym(b1 % 16 * 4 + b2 / 64);
    ValueSym(b2 % 64);
    [Sym(b0 / 4), Sym(b0 % 4 * 16 + b1 / 16), Sym(b1 % 16 * 4 + b2 / 64), Sym(b2 % 64)]
  }

  // ---------------------------------------------------------------------
  // Decoding
  // ---------------------------------------------------------------------

  /** The decoder's state between characters: position in the current
      quad, the bits left over from the previous character, the run of '='
      seen, the bytes produced so far, and whether a complete pad sequence
      ended the input. */
  datatype Scan = Scan(quad: nat, left: nat, pads: nat, out: seq<byte>, stopped: bool)

  const Start := Scan(0, 0, 0, [], false)

  /** One character of `a2b_base64`'s loop. A '=' counts towards padding only
      in the third or fourth position of a quad, and stops decoding once it
      completes the quad; other characters outside the alphabet are skipped. */
  function Step(st: Scan, c: char): (r: Scan)
    ensures |st.out| <= |r.out| <= |st.out| + 1 && r.out[..|st.out|] == st.out
  {
    if st.stopped then st
    else if c == '=' then
      if st.quad >= 2 then
        if st.quad + st.pads + 1 >= 4 then st.(pads := st.pads + 1, stopped := true)
        else st.(pads := st.pads + 1)
      else st
    else match Value(c)
      case None => st
      case Some(v) =>
        if st.quad == 0 then st.(quad := 1, left := v, pads := 0)
        else if st.quad == 1 then
          st.(quad := 2, left := v % 16, pads := 0, out := st.out + [((st.left * 4 + v / 16) % 256) as byte])
        else if st.quad == 2 then
          st.(quad := 3, left := v % 4, pads := 0, out := st.out + [((st.left * 16 + v / 4) % 256) as byte])
        else
          st.(quad := 0, left := 0, pads := 0, out := st.out + [((st.left * 64 + v) % 256) as byte])
  }

  /** The loop over a whole string. */
  function Run(s: string, st: Scan): (r: Scan)
    ensures st.stopped ==> r == st
    decreases |s|
  {
    if s == [] then st else Run(s[1..], Step(st, s[0]))
  }

  lemma {:induction false} RunAppend(a: string, b: string, st: Scan)
    ensures Run(a + b, st) == Run(b, Run(a, st))
    decreases |a|
  {
    if a == [] {
      assert a + b == b;
    } else {
      assert (a + b)[0] == a[0] && (a + b)[1..] == a[1..] + b;
      RunAppend(a[1..], b, Step(st, a[0]));
    }
  }

  /** What a partial quad still owes to the bound of three bytes per four
      characters: a character that starts a quad yields no byte yet. */
  function Owed(quad: nat): nat
  {
    if quad == 1 then 3 else if quad == 2 then 2 else if quad == 3 then 1 else 0
  }

  lemma StepBound(st: Scan, c: char)
    requires st.quad <= 3
    ensures Step(st, c).quad <= 3
    ensures 4 * |Step(st, c).out| + Owed(Step(st, c).quad) <= 4 * |st.out| + Owed(st.quad) + 3
  {
  }

  /** Each character read yields at most three quarters of a byte. */
  lemma {:induction false} RunBound(s: string, st: Scan)
    requires st.quad <= 3
    ensures Run(s, st).quad <= 3
    ensures 4 * |Run(s, st).out| + Owed(Run(s, st).quad) <= 4 * |st.out| + Owed(st.quad) + 3 * |s|
    decreases |s|
  {
    if s != [] {
      StepBound(st, s[0]);
      RunBound(s[1..], Step(st, s[0]));
    }
  }

  predicate IsAscii(s: string) { forall i :: 0 <= i < |s| ==> s[i] as int < 128 }

  datatype Decoded = Ok(bytes: seq<byte>) | Failed(message: string)

  /** `base64.b64decode(s)` for a `str` argument: the exception text on
      failure. Non-ASCII text is refused, and four characters never decode to
      more than three bytes. */
  function Decode(s: string): (r: Decoded)
    ensures !IsAscii(s) ==> r.Failed?
    ensures r.Ok? ==> 4 * |r.bytes| <= 3 * |s|
  {
    if !IsAscii(s) then Failed("string argument should contain only ASCII characters")
    else
      var st := Run(s, Start);
      RunBound(s, Start);
      if st.stopped || st.quad == 0 then Ok(st.out)
      else if st.quad == 1 then
        Failed("Invalid base64-encoded string: number of data characters ("
               + NatToString(|st.out| / 3 * 4 + 1) + ") cannot be 1 more than a multiple of 4")
      else Failed("Incorrect padding")
  }

  // ---------------------------------------------------------------------
  // Round trip
  // ---------------------------------------------------------------------

  lemma FirstByte(b0: nat, b1: nat)
    requires b0 < 256 && b1 < 256
    ensures var c1 := b0 % 4 * 16 + b1 / 16;
            (b0 / 4 * 4 + c1 / 16) % 256 == b0 && c1 % 16 == b1 / 16
  {
    var c1 := b0 % 4 * 16 + b1 / 16;
    assert c1 / 16 == b0 % 4;
  }

  lemma SecondByte(b1: nat, b2: nat)
    requires b1 < 256 && b2 < 256
    ensures var c2 := b1 % 16 * 4 + b2 / 64;
            (b1 / 16 * 16 + c2 / 4) % 256 == b1 && c2 % 4 == b2 / 64
  {
    var c2 := b1 % 16 * 4 + b2 / 64;
    assert c2 / 4 == b1 % 16;
  }

  lemma GroupRun(x: byte, y: byte, z: byte, out: seq<byte>)
    ensures Run(Group(x, y, z), Scan(0, 0, 0, out, false)) == Scan(0, 0, 0, out + [x, y, z], false)
  {
    var b0, b1, b2 := x as nat, y as nat, z as nat;
    var g := Group(x, y, z);
    var s1 := Scan(1, b0 / 4, 0, out, false);
    var s2 := Scan(2, b1 / 16, 0, out + [x], false);
    var s3 := Scan(3, b2 / 64, 0, out + [x, y], false);
    var s4 := Scan(0, 0, 0, out + [x, y, z], false);
    GroupStep0(x, out);
    GroupStep1(x, y, out);
    GroupStep2(x, y, z, out);
    GroupStep3(x, y, z, out);
    calc {
      Run(g, Scan(0, 0, 0, out, false));
      Run(g[1..], s1);
      Run(g[2..], s2);
      Run(g[3..], s3);
      Run(g[4..], s4);
    }
  }

  /** The four characters of a group, one decoder step each. */
  lemma GroupStep0(x: byte, out: seq<byte>)
    ensures Step(Scan(0, 0, 0, out, false), Sym(x as nat / 4)) == Scan(1, x as nat / 4, 0, out, false)
  {
    ValueSym(x as nat / 4);
  }

  lemma GroupStep1(x: byte, y: byte, out: seq<byte>)
    ensures var b0, b1 := x as nat, y as nat;
      Step(Scan(1, b0 / 4, 0, out, false), Sym(b0 % 4 * 16 + b1 / 16)) == Scan(2, b1 / 16, 0, out + [x], false)
  {
    var b0, b1 := x as nat, y as nat;
    ValueSym(b0 % 4 * 16 + b1 / 16);
    FirstByte(b0, b1);
  }

  lemma GroupStep2(x: byte, y: byte, z: byte, out: seq<byte>)
    ensures var b1, b2 := y as nat, z as nat;
      Step(Scan(2, b1 / 16, 0, out + [x], false), Sym(b1 % 16 * 4 + b2 / 64)) == Scan(3, b2 / 64, 0, out + [x, y], false)
  {
    var b1, b2 := y as nat, z as nat;
    ValueSym(b1 % 16 * 4 + b2 / 64);
    SecondByte(b1, b2);
    assert out + [x] + [y] == out + [x, y];
  }

  lemma GroupStep3(x: byte, y: byte, z: byte, out: seq<byte>)
    ensures var b2 := z as nat;
      Step(Scan(3, b2 / 64, 0, out + [x, y], false), Sym(b2 % 64)) == Scan(0, 0, 0, out + [x, y, z], false)
  {
    var b2 := z as nat;
    ValueSym(b2 % 64);
    assert (b2 / 64 * 64 + b2 % 64) % 256 == b2;
    assert out + [x, y] + [z] == out + [x, y, z];
  }

  /** One trailing byte: two data characters and "==" stop the decoder. */
  lemma TailOneRun(x: byte, out: seq<byte>)
    ensures Run(Encode([x]), Scan(0, 0, 0, out, false)) == Scan(2, 0, 2, out + [x], true)
  {
    var b0 := x as nat;
    var c0, c1 := b0 / 4, b0 % 4 * 16;
    ValueSym(c0); ValueSym(c1);
    FirstByte(b0, 0);
    var e := Encode([x]);
    assert e == [Sym(c0), Sym(c1), '=', '='];
    var s1 := Scan(1, c0, 0, out, false);
    var s2 := Scan(2, 0, 0, out + [x], false);
    var s3 := Scan(2, 0, 1, out + [x], false);
    var s4 := Scan(2, 0, 2, out + [x], true);
    assert Step(Scan(0, 0, 0, out, false), e[0]) == s1;
    assert Step(s1, e[1]) == s2;
    assert Step(s2, e[2]) == s3;
    assert Step(s3, e[3]) == s4;
    calc {
      Run(e, Scan(0, 0, 0, out, false));
      Run(e[1..], s1);
      Run(e[2..], s2);
      Run(e[3..], s3);
      Run(e[4..], s4);
    }
  }

  /** Two trailing bytes: three data characters and "=" stop the decoder. */
  lemma TailTwoRun(x: byte, y: byte, out: seq<byte>)
    ensures Run(Encode([x, y]), Scan(0, 0, 0, out, false)) == Scan(3, 0, 1, out + [x, y], true)
  {
    var b0, b1 := x as nat, y as nat;
    var c0, c1, c2 := b0 / 4, b0 % 4 * 16 + b1 / 16, b1 % 16 * 4;
    ValueSym(c0); ValueSym(c1); ValueSym(c2);
    FirstByte(b0, b1);
    SecondByte(b1, 0);
    var e := Encode([x, y]);
    assert e == [Sym(c0), Sym(c1), Sym(c2), '='];
    var s1 := Scan(1, c0, 0, out, false);
    var s2 := Scan(2, b1 / 16, 0, out + [x], false);
    var s3 := Scan(3, 0, 0, out + [x, y], false);
    var s4 := Scan(3, 0, 1, out + [x, y], true);
    assert Step(Scan(0, 0, 0, out, false), e[0]) == s1;
    assert Step(s1, e[1]) == s2;
    assert Step(s2, e[2]) == s3;
    assert Step(s3, e[3]) == s4;
    calc {
      Run(e, Scan(0, 0, 0, out, false));
      Run(e[1..], s1);
      Run(e[2..], s2);
      Run(e[3..], s3);
      Run(e[4..], s4);
    }
  }

  lemma {:induction false} EncodeRun(b: seq<byte>, out: seq<byte>)
    ensures var st := Run(Encode(b), Scan(0, 0, 0, out, false));
            st.out == out + b && (st.stopped || st.quad == 0)
    decreases |b|
  {
    if |b| < 3 {
      EncodeRunShort(b, out);
    } else {
      EncodeGroupFirst(b, out);
      EncodeRun(b[3..], out + [b[0], b[1], b[2]]);
      Regroup(out, b);
    }
  }

  /** Fewer than three bytes: the padded tail stops the decoder. */
  lemma EncodeRunShort(b: seq<byte>, out: seq<byte>)
    requires |b| < 3
    ensures var st := Run(Encode(b), Scan(0, 0, 0, out, false));
            st.out == out + b && (st.stopped || st.quad == 0)
  {
    if |b| == 0 {
      assert out + b == out;
    } else if |b| == 1 {
      EncodeRunOne(b, out);
    } else {
      EncodeRunTwo(b, out);
    }
  }

  lemma EncodeRunOne(b: seq<byte>, out: seq<byte>)
    requires |b| == 1
    ensures var st := Run(Encode(b), Scan(0, 0, 0, out, false));
            st.out == out + b && st.stopped
  {
    var x := b[0];
    assert b == [x];
    TailOneRun(x, out);
  }

  lemma EncodeRunTwo(b: seq<byte>, out: seq<byte>)
    requires |b| == 2
    ensures var st := Run(Encode(b), Scan(0, 0, 0, out, false));
            st.out == out + b && st.stopped
  {
    var x, y := b[0], b[1];
    assert b == [x, y];
    TailTwoRun(x, y, out);
  }

  lemma Regroup(out: seq<byte>, b: seq<byte>)
    requires |b| >= 3
    ensures out + [b[0], b[1], b[2]] + b[3..] == out + b
  {
    assert b == [b[0], b[1], b[2]] + b[3..];
  }

  /** The decoder reads the first group of a long encoding into its bytes
      and goes on with the rest. */
  lemma EncodeGroupFirst(b: seq<byte>, out: seq<byte>)
    requires |b| >= 3
    ensures Run(Encode(b), Scan(0, 0, 0, out, false))
         == Run(Encode(b[3..]), Scan(0, 0, 0, out + [b[0], b[1], b[2]], false))
  {
    var g := Group(b[0], b[1], b[2]);
    assert Encode(b) == g + Encode(b[3..]);
    RunAppend(g, Encode(b[3..]), Scan(0, 0, 0, out, false));
    GroupRun(b[0], b[1], b[2], out);
  }

  /** Decoding what the encoder produced gives the bytes back. */
  lemma DecodeEncode(b: seq<byte>)
    ensures Decode(Encode(b)) == Ok(b)
  {
    EncodeRun(b, []);
    var e := Encode(b);
    forall i | 0 <= i < |e|
      ensures e[i] as int < 128
    {
      if e[i] != '=' {
        assert InAlphabet(e[i]);
      }
    }
  }

  /** A run of data characters only advances the quad position. */
  lemma {:induction false} RunAlphabet(s: string, st: Scan)
    requires !st.stopped && st.quad < 4
    requires forall i :: 0 <= i < |s| ==> InAlphabet(s[i])
    ensures !Run(s, st).stopped && Run(s, st).quad == (st.quad + |s|) % 4
    decreases |s|
  {
    if s != [] {
      var st' := Step(st, s[0]);
      StepAlphabet(st, s[0]);
      RunAlphabet(s[1..], st');
      assert Run(s, st) == Run(s[1..], st');
      QuadAdvance(st.quad, |s|);
    }
  }

  lemma QuadAdvance(q: nat, n: nat)
    requires n >= 1
    ensures ((q + 1) % 4 + (n - 1)) % 4 == (q + n) % 4
  {
    var m := q + 1;
    assert m == m / 4 * 4 + m % 4;
    assert (m % 4 + (n - 1)) % 4 == (m + (n - 1) - m / 4 * 4) % 4;
  }

  /** A data character moves one position along the quad. */
  lemma StepAlphabet(st: Scan, c: char)
    requires !st.stopped && st.quad < 4 && InAlphabet(c)
    ensures !Step(st, c).stopped && Step(st, c).quad == (st.quad + 1) % 4
  {
  }

  /** Alphabet characters followed by '=' padding, with one data character
      more than a multiple of four, cannot be decoded. */
  lemma DecodeOneOver(s: string, k: nat)
    requires |s| % 4 == 1
    requires forall i :: 0 <= i < |s| ==> InAlphabet(s[i])
    ensures Decode(s + seq(k, _ => '=')).Failed?
  {
    var pads := seq(k, _ => '=');
    RunAlphabet(s, Start);
    RunAppend(s, pads, Start);
    PadsAtQuadOne(pads, Run(s, Start));
    var t := s + pads;
    forall i | 0 <= i < |t|
      ensures t[i] as int < 128
    {
      if i < |s| {
        assert InAlphabet(s[i]);
      } else {
        assert t[i] == pads[i - |s|];
      }
    }
  }

  /** With one data character in the quad, '=' characters are skipped. */
  lemma {:induction false} PadsAtQuadOne(pads: string, st: Scan)
    requires !st.stopped && st.quad == 1
    requires forall i :: 0 <= i < |pads| ==> pads[i] == '='
    ensures Run(pads, st) == st
    decreases |pads|
  {
    if pads != [] {
      PadsAtQuadOne(pads[1..], st);
    }
  }
}
