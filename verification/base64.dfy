/** Base 64 encoding of the HMAC signature bytes, as section 4 (standard
    alphabet, `=` padding: `btoa`) and section 5 (URL- and filename-safe
    alphabet, no padding: `Buffer.toString('base64url')`) of RFC 4648 define
    it, and the rewrite middleware.ts (lines 21-27) applies to the standard
    form to reach the URL-safe one. */
module Base64 {

  newtype byte = x: int | 0 <= x < 256

  /** The character for the 6-bit value `k`: table 1 of RFC 4648 for the standard
      alphabet and table 2 for the URL-safe one; they differ only at 62 and 63. */
  function Letter(k: nat, url: bool): (c: char)
    requires k < 64
  {
    if k < 26 then ('A' as int + k) as char
    else if k < 52 then ('a' as int + (k - 26)) as char
    else if k < 62 then ('0' as int + (k - 52)) as char
    else if k == 62 then (if url then '-' else '+')
    else (if url then '_' else '/')
  }

  /** The characters of the URL-safe alphabet. */
  predicate IsUrlChar(c: char) {
    ('A' <= c <= 'Z') || ('a' <= c <= 'z') || ('0' <= c <= '9') || c == '-' || c == '_'
  }

  /** The characters of the standard alphabet. */
  predicate IsStdChar(c: char) {
    ('A' <= c <= 'Z') || ('a' <= c <= 'z') || ('0' <= c <= '9') || c == '+' || c == '/'
  }

  lemma LetterInAlphabet(k: nat, url: bool)
    requires k < 64
    ensures url ==> IsUrlChar(Letter(k, url))
    ensures !url ==> IsStdChar(Letter(k, url))
  {}

  /** The 6-bit groups of one input group of one to three bytes, missing bytes
      read as zero, and only as many groups as carry input bits. */
  function Sextets(bs: seq<byte>): (r: seq<nat>)
    requires 1 <= |bs| <= 3
    ensures |r| == |bs| + 1
    ensures forall i :: 0 <= i < |r| ==> r[i] < 64
  {
    var n := bs[0] as int * 65536 + (if |bs| > 1 then bs[1] as int * 256 else 0) + (if |bs| > 2 then bs[2] as int else 0);
    assert 0 <= n < 16777216;
    [n / 262144, (n / 4096) % 64, (n / 64) % 64, n % 64][..|bs| + 1]
  }

  function Letters(ks: seq<nat>, url: bool): (r: string)
    requires forall i :: 0 <= i < |ks| ==> ks[i] < 64
    ensures |r| == |ks|
    ensures forall i :: 0 <= i < |r| ==> r[i] == Letter(ks[i], url)
  {
    seq(|ks|, i requires 0 <= i < |ks| => Letter(ks[i], url))
  }

  /** `n` padding characters. */
  function Padding(n: nat): (r: string)
    ensures |r| == n && forall i :: 0 <= i < n ==> r[i] == '='
  {
    seq(n, _ => '=')
  }

  /** The number of `=` a padded encoding of `n` bytes ends with. */
  function PadLength(n: nat): nat {
    (3 - n % 3) % 3
  }

  /** Encodes `bs` three bytes at a time; the last, shorter group is padded when `pad` holds. */
  function Encode(bs: seq<byte>, url: bool, pad: bool): string
    decreases |bs|
  {
    if bs == [] then []
    else if |bs| >= 3 then Letters(Sextets(bs[..3]), url) + Encode(bs[3..], url, pad)
    else Letters(Sextets(bs), url) + (if pad then Padding(3 - |bs|) else [])
  }

  /** `btoa` of the bytes read as a binary string. */
  function EncodeStd(bs: seq<byte>): string {
    Encode(bs, false, true)
  }

  /** `Buffer.from(bs).toString('base64url')`. */
  function EncodeUrl(bs: seq<byte>): string {
    Encode(bs, true, false)
  }

  /** An unpadded encoding uses the alphabet's characters only. */
  lemma {:induction false} EncodeAlphabet(bs: seq<byte>, url: bool)
    ensures forall i :: 0 <= i < |Encode(bs, url, false)| ==>
              (url ==> IsUrlChar(Encode(bs, url, false)[i])) && (!url ==> IsStdChar(Encode(bs, url, false)[i]))
    decreases |bs|
  {
    if bs != [] {
      var group := if |bs| >= 3 then bs[..3] else bs;
      var head := Letters(Sextets(group), url);
      forall i | 0 <= i < |head|
        ensures (url ==> IsUrlChar(head[i])) && (!url ==> IsStdChar(head[i]))
      {
        LetterInAlphabet(Sextets(group)[i], url);
      }
      if |bs| >= 3 {
        EncodeAlphabet(bs[3..], url);
      }
    }
  }

  /** The URL-safe encoding never contains `.`, the separator of a session token. */
  lemma EncodeUrlHasNoDot(bs: seq<byte>)
    ensures '.' !in EncodeUrl(bs)
    ensures forall i :: 0 <= i < |EncodeUrl(bs)| ==> IsUrlChar(EncodeUrl(bs)[i])
  {
    EncodeAlphabet(bs, true);
  }

  /** A padded encoding is the unpadded one followed by its padding. */
  lemma {:induction false} PaddedIsUnpaddedPlusPadding(bs: seq<byte>, url: bool)
    ensures Encode(bs, url, true) == Encode(bs, url, false) + Padding(PadLength(|bs|))
    decreases |bs|
  {
    if bs == [] {
    } else if |bs| >= 3 {
      var head := Letters(Sextets(bs[..3]), url);
      PaddedIsUnpaddedPlusPadding(bs[3..], url);
      assert PadLength(|bs|) == PadLength(|bs| - 3);
      var p := Padding(PadLength(|bs|));
      calc {
        Encode(bs, url, true);
        head + Encode(bs[3..], url, true);
        head + (Encode(bs[3..], url, false) + p);
        (head + Encode(bs[3..], url, false)) + p;
        Encode(bs, url, false) + p;
      }
    } else {
      assert PadLength(|bs|) == 3 - |bs|;
    }
  }

  // ---------------------------------------------------------------------------
  // middleware.ts, line 27
  // ---------------------------------------------------------------------------

  /** `s.replace(/x/g, y)` for a single character `x`. */
  function ReplaceAll(s: string, x: char, y: char): (r: string)
    ensures |r| == |s|
    ensures forall i :: 0 <= i < |s| ==> r[i] == (if s[i] == x then y else s[i])
  {
    seq(|s|, i requires 0 <= i < |s| => if s[i] == x then y else s[i])
  }

  /** `s.replace(/=+$/, '')`: drops the run of `=` at the end. */
  function StripPadding(s: string): (r: string)
    ensures |r| <= |s| && r == s[..|r|]
    ensures r == [] || r[|r| - 1] != '='
    ensures forall i :: |r| <= i < |s| ==> s[i] == '='
    decreases |s|
  {
    if s != [] && s[|s| - 1] == '=' then StripPadding(s[..|s| - 1]) else s
  }

  /** The rewrite the middleware applies to `btoa`'s output. */
  function StdToUrl(s: string): string {
    StripPadding(ReplaceAll(ReplaceAll(s, '+', '-'), '/', '_'))
  }

  lemma ReplaceAllAppend(a: string, b: string, x: char, y: char)
    ensures ReplaceAll(a + b, x, y) == ReplaceAll(a, x, y) + ReplaceAll(b, x, y)
  {
    var l := ReplaceAll(a + b, x, y);
    var r := ReplaceAll(a, x, y) + ReplaceAll(b, x, y);
    assert forall i :: 0 <= i < |l| ==> l[i] == r[i];
  }

  /** Swapping the two characters that differ turns a standard encoding into a URL-safe one. */
  lemma {:induction false} SwapAlphabet(bs: seq<byte>, pad: bool)
    ensures ReplaceAll(ReplaceAll(Encode(bs, false, pad), '+', '-'), '/', '_') == Encode(bs, true, pad)
    decreases |bs|
  {
    if bs != [] {
      var group := if |bs| >= 3 then bs[..3] else bs;
      var std := Letters(Sextets(group), false);
      var tail := if |bs| >= 3 then Encode(bs[3..], false, pad) else if pad then Padding(3 - |bs|) else [];
      var urlTail := if |bs| >= 3 then Encode(bs[3..], true, pad) else if pad then Padding(3 - |bs|) else [];
      assert Encode(bs, false, pad) == std + tail;
      assert Encode(bs, true, pad) == Letters(Sextets(group), true) + urlTail;
      ReplaceAllAppend(std, tail, '+', '-');
      ReplaceAllAppend(ReplaceAll(std, '+', '-'), ReplaceAll(tail, '+', '-'), '/', '_');
      assert ReplaceAll(ReplaceAll(std, '+', '-'), '/', '_') == Letters(Sextets(group), true);
      if |bs| >= 3 {
        SwapAlphabet(bs[3..], pad);
      } else {
        assert ReplaceAll(ReplaceAll(tail, '+', '-'), '/', '_') == tail;
      }
    }
  }

  /** Stripping a trailing run of `=` from text that does not end in `=`
      removes exactly that run. */
  lemma StripPaddingOf(s: string, n: nat)
    requires s == [] || s[|s| - 1] != '='
    ensures StripPadding(s + Padding(n)) == s
  {
    assert s == (s + Padding(n))[..|s|];
  }

  /** The middleware's rewrite of `btoa`'s output is exactly the URL-safe
      encoding, so both signers produce the same signature. */
  lemma StdToUrlIsEncodeUrl(bs: seq<byte>)
    ensures StdToUrl(EncodeStd(bs)) == EncodeUrl(bs)
  {
    PaddedIsUnpaddedPlusPadding(bs, false);
    PaddedIsUnpaddedPlusPadding(bs, true);
    SwapAlphabet(bs, true);
    EncodeUrlHasNoDot(bs);
    var e := EncodeUrl(bs);
    assert e == [] || IsUrlChar(e[|e| - 1]);
    StripPaddingOf(e, PadLength(|bs|));
  }
}
