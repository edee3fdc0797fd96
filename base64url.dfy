/** `base64url_encode` of index.php: standard Base64, then `+` and `/`
    replaced by `-` and `_`, then every trailing `=` removed. This is the
    URL- and filename-safe alphabet of section 5 of RFC 4648 without
    padding, the "Base64url Encoding" of section 2 of RFC 7515. The decoder
    is the partner that shows nothing is lost. */
module Base64Url {
  import opened Wrappers
  import Base64

  /** `strtr` with `'+/'` to `'-_'`, on one character. */
  function UrlSafe(c: char): char {
    if c == '+' then '-' else if c == '/' then '_' else c
  }

  /** The reverse character mapping, used when decoding. */
  function Standard(c: char): char {
    if c == '-' then '+' else if c == '_' then '/' else c
  }

  function Translate(s: string): string {
    seq(|s|, i requires 0 <= i < |s| => UrlSafe(s[i]))
  }

  function Untranslate(s: string): string {
    seq(|s|, i requires 0 <= i < |s| => Standard(s[i]))
  }

  /** `rtrim` with `'='`: drops every trailing `=`. */
  function TrimPadding(s: string): string
    decreases |s|
  {
    if |s| > 0 && s[|s| - 1] == '=' then TrimPadding(s[..|s| - 1]) else s
  }

  /** `base64url_encode` (index.php:46-49). */
  function Encode(data: seq<Base64.Byte>): string {
    TrimPadding(Translate(Base64.Encode(data)))
  }

  /** The characters of the URL- and filename-safe alphabet (Table 2 of
      RFC 4648, without the pad). */
  predicate IsUrlChar(c: char) {
    ('A' <= c <= 'Z') || ('a' <= c <= 'z') || ('0' <= c <= '9') || c == '-' || c == '_'
  }

  /** Padding restored for decoding: `=` until the length is a multiple of 4. */
  function Repad(s: string): string {
    s + seq((4 - |s| % 4) % 4, _ => '=')
  }

  /** A decoder for unpadded base64url text. It serves only as the inverse
      in the round-trip lemmas: it also accepts `+`, `/`, text that is
      already padded, and a last quantum whose leftover bits are not zero. */
  function Decode(s: string): Option<seq<Base64.Byte>> {
    Base64.Decode(Untranslate(Repad(s)))
  }

  /** Known answers: the two characters outside the standard alphabet, and
      the padding removed from the RFC 4648 vectors. */
  lemma KnownAnswers()
    ensures Encode([251, 255]) == "-_8"
    ensures Encode([102]) == "Zg"
    ensures Encode([102, 111, 111, 98, 97]) == "Zm9vYmE"
  {
    Base64.KnownAnswers();
    EncodeIsTrimmedTranslation([251, 255]);
    EncodeIsTrimmedTranslation([102]);
    EncodeIsTrimmedTranslation([102, 111, 111, 98, 97]);
  }

  /** Trimming a string that ends in exactly `k` padding characters keeps
      everything before them. */
  lemma {:induction false} TrimPaddedTail(s: string, k: nat)
    requires k <= |s|
    requires forall i :: |s| - k <= i < |s| ==> s[i] == '='
    requires |s| == k || s[|s| - k - 1] != '='
    ensures TrimPadding(s) == s[..|s| - k]
    decreases k
  {
    if k == 0 {
      assert s[..|s|] == s;
    } else {
      var t := s[..|s| - 1];
      assert forall i :: |t| - (k - 1) <= i < |t| ==> t[i] == s[i];
      TrimPaddedTail(t, k - 1);
      assert t[..|t| - (k - 1)] == s[..|s| - k];
    }
  }

  /** The URL-safe encoding is the translated standard encoding with exactly
      its padding cut off. */
  lemma {:induction false} EncodeIsTrimmedTranslation(data: seq<Base64.Byte>)
    ensures var e := Base64.Encode(data);
            Encode(data) == Translate(e)[..|e| - Base64.PadCount(|data|)]
  {
    var e := Base64.Encode(data);
    var t := Translate(e);
    var k := Base64.PadCount(|data|);
    Base64.EncodeShape(data);
    assert k <= |t| by {
      assert |e| == 4 * ((|data| + 2) / 3);
    }
    forall i | |t| - k <= i < |t|
      ensures t[i] == '='
    {
      assert e[i] == '=';
    }
    if |t| > k {
      assert Base64.IsStdChar(e[|t| - k - 1]);
    }
    TrimPaddedTail(t, k);
  }

  /** For n input bytes the output has 4 * (n / 3) characters for the full
      groups and 0, 2 or 3 more for a final group of 0, 1 or 2 bytes: the
      padded length less exactly the padding. */
  lemma {:induction false} EncodeLength(data: seq<Base64.Byte>)
    ensures |Encode(data)| == 4 * (|data| / 3) + (if |data| % 3 == 0 then 0 else |data| % 3 + 1)
    ensures |Encode(data)| == |Base64.Encode(data)| - Base64.PadCount(|data|)
  {
    EncodeIsTrimmedTranslation(data);
    UnpaddedLength(|data|);
  }

  /** The padded length less the padding, in closed form. */
  lemma UnpaddedLength(n: nat)
    ensures 4 * ((n + 2) / 3) - Base64.PadCount(n) == 4 * (n / 3) + (if n % 3 == 0 then 0 else n % 3 + 1)
  {
    var q, r := n / 3, n % 3;
    assert n == 3 * q + r;
    assert (n + 2) / 3 == if r == 0 then q else q + 1;
  }

  /** Every output character is in the URL-safe alphabet; in particular
      none is `+`, `/`, `=` or the JWS separator `.`. */
  lemma {:induction false} EncodeAlphabet(data: seq<Base64.Byte>)
    ensures forall i :: 0 <= i < |Encode(data)| ==> IsUrlChar(Encode(data)[i])
    ensures '+' !in Encode(data) && '/' !in Encode(data) && '=' !in Encode(data)
    ensures '.' !in Encode(data)
  {
    var e := Base64.Encode(data);
    EncodeIsTrimmedTranslation(data);
    Base64.EncodeShape(data);
    forall i | 0 <= i < |Encode(data)|
      ensures IsUrlChar(Encode(data)[i])
    {
      assert Base64.IsStdChar(e[i]);
      assert Encode(data)[i] == UrlSafe(e[i]);
    }
  }

  /** How much padding `Repad` restores, by the length left after trimming. */
  lemma RepadCount(n: nat)
    ensures var len := 4 * (n / 3) + (if n % 3 == 0 then 0 else n % 3 + 1);
            (4 - len % 4) % 4 == Base64.PadCount(n)
  {
  }

  /** Re-padding and mapping `-` and `_` back gives exactly the standard
      encoding of the same bytes. */
  lemma {:induction false} Reversible(data: seq<Base64.Byte>)
    ensures Untranslate(Repad(Encode(data))) == Base64.Encode(data)
  {
    var e := Base64.Encode(data);
    var u := Encode(data);
    EncodeLength(data);
    EncodeIsTrimmedTranslation(data);
    Base64.EncodeShape(data);
    RepadCount(|data|);
    var r := Untranslate(Repad(u));
    assert |r| == |e|;
    forall i | 0 <= i < |e|
      ensures r[i] == e[i]
    {
      if i < |u| {
        assert Base64.IsStdChar(e[i]);
        assert u[i] == UrlSafe(e[i]);
      } else {
        assert Repad(u)[i] == '=';
      }
    }
  }

  /** Decoding gives the bytes back. */
  lemma {:induction false} DecodeEncode(data: seq<Base64.Byte>)
    ensures Decode(Encode(data)) == Some(data)
  {
    Reversible(data);
    Base64.DecodeEncode(data);
  }

  /** Different inputs have different URL-safe encodings. */
  lemma {:induction false} EncodeInjective(a: seq<Base64.Byte>, b: seq<Base64.Byte>)
    requires Encode(a) == Encode(b)
    ensures a == b
  {
    Reversible(a);
    Reversible(b);
    Base64.EncodeInjective(a, b);
  }
}
