/** Standard Base64 with padding, as section 4 of RFC 4648 defines it: the
    `base64_encode` that index.php builds its URL-safe encoding on, and the
    decoder that undoes it. Bytes are integers in 0..255. */
module Base64 {
  import opened Wrappers

  type Byte = x: int | 0 <= x < 256
  type Sextet = x: int | 0 <= x < 64

  /** Table 1 of RFC 4648: the character that stands for a 6-bit value. */
  function StdChar(v: Sextet): (c: char)
    ensures StdIndex(c) == Some(v)
  {
    if v < 26 then ('A' as int + v) as char
    else if v < 52 then ('a' as int + (v - 26)) as char
    else if v < 62 then ('0' as int + (v - 52)) as char
    else if v == 62 then '+'
    else '/'
  }

  /** Table 1 read backwards: the 6-bit value of an alphabet character. */
  function StdIndex(c: char): Option<Sextet>
  {
    if 'A' <= c <= 'Z' then Some(c as int - 'A' as int)
    else if 'a' <= c <= 'z' then Some(c as int - 'a' as int + 26)
    else if '0' <= c <= '9' then Some(c as int - '0' as int + 52)
    else if c == '+' then Some(62)
    else if c == '/' then Some(63)
    else None
  }

  predicate IsStdChar(c: char) {
    StdIndex(c).Some?
  }

  /** How many `=` close the encoding of an n-byte input. */
  function PadCount(n: nat): nat {
    if n % 3 == 0 then 0 else 3 - n % 3
  }

  /** Three bytes, read as one 24-bit group, become four characters. */
  function EncodeGroup(b0: Byte, b1: Byte, b2: Byte): string {
    [StdChar(b0 / 4), StdChar((b0 % 4) * 16 + b1 / 16), StdChar((b1 % 16) * 4 + b2 / 64), StdChar(b2 % 64)]
  }

  /** Base64 of `data`: one quantum of four characters per three bytes; a
      final group of one or two bytes is zero-filled and padded with `=`. */
  function Encode(data: seq<Byte>): (s: string)
    ensures |s| == 4 * ((|data| + 2) / 3)
    decreases |data|
  {
    if |data| == 0 then ""
    else if |data| == 1 then
      [StdChar(data[0] / 4), StdChar((data[0] % 4) * 16), '=', '=']
    else if |data| == 2 then
      [StdChar(data[0] / 4), StdChar((data[0] % 4) * 16 + data[1] / 16), StdChar((data[1] % 16) * 4), '=']
    else
      EncodeGroup(data[0], data[1], data[2]) + Encode(data[3..])
  }

  /** Position `i` of an encoding holds an alphabet character, or `=` when
      it lies among the last `PadCount` positions. */
  lemma {:induction false} EncodeAt(data: seq<Byte>, i: int)
    requires 0 <= i < |Encode(data)|
    ensures i < |Encode(data)| - PadCount(|data|) ==> IsStdChar(Encode(data)[i])
    ensures i >= |Encode(data)| - PadCount(|data|) ==> Encode(data)[i] == '='
    decreases |data|
  {
    if |data| >= 3 {
      var g := EncodeGroup(data[0], data[1], data[2]);
      var rest := Encode(data[3..]);
      assert Encode(data) == g + rest;
      assert PadCount(|data[3..]|) == PadCount(|data|);
      if i < 4 {
        assert Encode(data)[i] == g[i] && IsStdChar(g[i]);
        assert |rest| == 0 || |rest| >= 4;
      } else {
        EncodeAt(data[3..], i - 4);
        assert Encode(data)[i] == rest[i - 4];
      }
    }
  }

  /** The shape of an encoding: alphabet characters, then exactly
      `PadCount` padding characters. */
  lemma EncodeShape(data: seq<Byte>)
    ensures forall i :: 0 <= i < |Encode(data)| - PadCount(|data|) ==> IsStdChar(Encode(data)[i])
    ensures forall i :: |Encode(data)| - PadCount(|data|) <= i < |Encode(data)| ==> Encode(data)[i] == '='
  {
    forall i | 0 <= i < |Encode(data)| {
      EncodeAt(data, i);
    }
  }

  /** One quantum of four characters back to its bytes; `last` allows the
      padded forms `xx==` (one byte) and `xxx=` (two bytes). */
  function DecodeQuantum(c0: char, c1: char, c2: char, c3: char, last: bool): Option<seq<Byte>> {
    var v0, v1, v2, v3 := StdIndex(c0), StdIndex(c1), StdIndex(c2), StdIndex(c3);
    if v0.None? || v1.None? then None
    else
      var b0 := v0.value * 4 + v1.value / 16;
      if last && c2 == '=' && c3 == '=' then Some([b0])
      else if v2.None? then None
      else
        var b1 := (v1.value % 16) * 16 + v2.value / 4;
        if last && c3 == '=' then Some([b0, b1])
        else if v3.None? then None
        else Some([b0, b1, (v2.value % 4) * 64 + v3.value])
  }

  /** Base64 text back to bytes, quantum by quantum; `None` for text that is
      not a sequence of whole quanta over the alphabet. */
  function Decode(s: string): Option<seq<Byte>>
    decreases |s|
  {
    if |s| == 0 then Some([])
    else if |s| < 4 then None
    else if |s| == 4 then DecodeQuantum(s[0], s[1], s[2], s[3], true)
    else
      match (DecodeQuantum(s[0], s[1], s[2], s[3], false), Decode(s[4..]))
      case (Some(head), Some(tail)) => Some(head + tail)
      case _ => None
  }

  /** A sextet made of a high part `hi` and a low part `lo` of `k` bits
      splits back into those parts. */
  lemma SplitSextet(hi: int, lo: int, k: int)
    requires k == 4 || k == 16 || k == 64
    requires 0 <= lo < k
    ensures (hi * k + lo) / k == hi && (hi * k + lo) % k == lo
  {
  }

  /** The four sextets of a full group give back its three bytes. */
  lemma GroupRoundTrip(b0: Byte, b1: Byte, b2: Byte, last: bool)
    ensures var g := EncodeGroup(b0, b1, b2);
            DecodeQuantum(g[0], g[1], g[2], g[3], last) == Some([b0, b1, b2])
  {
    SplitSextet(b0 % 4, b1 / 16, 16);
    SplitSextet(b1 % 16, b2 / 64, 4);
  }

  /** A final single byte, encoded as `xx==`, decodes back. */
  lemma OneByteRoundTrip(data: seq<Byte>)
    requires |data| == 1
    ensures Decode(Encode(data)) == Some(data)
  {
    var b0 := data[0];
    SplitSextet(b0 % 4, 0, 16);
    var s := Encode(data);
    assert s == [StdChar(b0 / 4), StdChar((b0 % 4) * 16), '=', '='];
    assert DecodeQuantum(s[0], s[1], s[2], s[3], true) == Some([b0]);
    assert data == [b0];
  }

  /** A final pair of bytes, encoded as `xxx=`, decodes back. */
  lemma TwoByteRoundTrip(data: seq<Byte>)
    requires |data| == 2
    ensures Decode(Encode(data)) == Some(data)
  {
    var b0, b1 := data[0], data[1];
    var v0, v1, v2 := b0 / 4, (b0 % 4) * 16 + b1 / 16, (b1 % 16) * 4;
    SplitSextet(b0 % 4, b1 / 16, 16);
    SplitSextet(b1 % 16, 0, 4);
    assert v0 * 4 + v1 / 16 == b0;
    assert (v1 % 16) * 16 + v2 / 4 == b1;
    var s := Encode(data);
    assert s == [StdChar(v0), StdChar(v1), StdChar(v2), '='];
    assert DecodeQuantum(StdChar(v0), StdChar(v1), StdChar(v2), '=', true) == Some([b0, b1]);
    assert data == [b0, b1];
  }

  /** A leading quantum that is not the last one decodes in front of the rest. */
  lemma {:induction false} DecodePrefix(q: string, rest: string, head: seq<Byte>, tail: seq<Byte>)
    requires |q| == 4 && |rest| > 0
    requires DecodeQuantum(q[0], q[1], q[2], q[3], false) == Some(head)
    requires Decode(rest) == Some(tail)
    ensures Decode(q + rest) == Some(head + tail)
  {
    var s := q + rest;
    assert s[0] == q[0] && s[1] == q[1] && s[2] == q[2] && s[3] == q[3];
    assert s[4..] == rest;
  }

  /** Three bytes alone decode back from their one quantum. */
  lemma {:induction false} ThreeByteRoundTrip(data: seq<Byte>)
    requires |data| == 3
    ensures Decode(Encode(data)) == Some(data)
  {
    var g := EncodeGroup(data[0], data[1], data[2]);
    assert Encode(data[3..]) == "";
    assert Encode(data) == g;
    GroupRoundTrip(data[0], data[1], data[2], true);
    assert data == [data[0], data[1], data[2]];
  }

  /** A leading full group decodes back in front of whatever the rest
      decodes to. */
  lemma {:induction false} GroupStep(b0: Byte, b1: Byte, b2: Byte, tail: seq<Byte>)
    requires |tail| > 0
    requires Decode(Encode(tail)) == Some(tail)
    ensures Decode(Encode([b0, b1, b2] + tail)) == Some([b0, b1, b2] + tail)
  {
    var data := [b0, b1, b2] + tail;
    assert data[0] == b0 && data[1] == b1 && data[2] == b2 && data[3..] == tail;
    var g := EncodeGroup(b0, b1, b2);
    assert Encode(data) == g + Encode(tail);
    GroupRoundTrip(b0, b1, b2, false);
    DecodePrefix(g, Encode(tail), [b0, b1, b2], tail);
  }

  /** Decoding inverts encoding (section 4 of RFC 4648). */
  lemma {:induction false} DecodeEncode(data: seq<Byte>)
    ensures Decode(Encode(data)) == Some(data)
    decreases |data|
  {
    if |data| == 0 {
      assert Encode(data) == "";
    } else if |data| == 1 {
      OneByteRoundTrip(data);
    } else if |data| == 2 {
      TwoByteRoundTrip(data);
    } else if |data| == 3 {
      ThreeByteRoundTrip(data);
    } else {
      DecodeEncode(data[3..]);
      GroupStep(data[0], data[1], data[2], data[3..]);
      assert data == [data[0], data[1], data[2]] + data[3..];
    }
  }

  /** The test vectors of section 10 of RFC 4648 ("", "f", "fo", "foo",
      "foob", "fooba", "foobar" as bytes). */
  lemma KnownAnswers()
    ensures Encode([]) == ""
    ensures Encode([102]) == "Zg=="
    ensures Encode([102, 111]) == "Zm8="
    ensures Encode([102, 111, 111]) == "Zm9v"
    ensures Encode([102, 111, 111, 98]) == "Zm9vYg=="
    ensures Encode([102, 111, 111, 98, 97]) == "Zm9vYmE="
    ensures Encode([102, 111, 111, 98, 97, 114]) == "Zm9vYmFy"
  {
  }

  /** Different byte sequences have different encodings. */
  lemma EncodeInjective(a: seq<Byte>, b: seq<Byte>)
    requires Encode(a) == Encode(b)
    ensures a == b
  {
    DecodeEncode(a);
    DecodeEncode(b);
  }
}
