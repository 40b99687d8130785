/** custom_link (linker.py:89-97): the compressor's base64 text is made
    URL-safe and appended to a destination URI as the `z` query parameter.
    The compressor itself (LZString's compressToBase64) is a parameter. */
module LinkPayload {

  /** The digits of the standard base64 alphabet that compressToBase64 uses;
      `=` is its padding character. */
  predicate IsBase64Digit(c: char) {
    ('A' <= c <= 'Z') || ('a' <= c <= 'z') || ('0' <= c <= '9') || c == '+' || c == '/'
  }

  predicate IsUrlUnsafe(c: char) {
    c == '+' || c == '/' || c == '='
  }

  /** `.replace("+", "-").replace("/", "_")`, one character at a time. */
  function SwapUnsafe(c: char): char {
    if c == '+' then '-' else if c == '/' then '_' else c
  }

  function SwapAll(s: string): string {
    seq(|s|, i requires 0 <= i < |s| => SwapUnsafe(s[i]))
  }

  /** `.replace("=", "")`. */
  function DropPadding(s: string): string {
    if s == [] then []
    else (if s[0] == '=' then [] else [s[0]]) + DropPadding(s[1..])
  }

  lemma {:induction false} DropPaddingKeeps(s: string)
    ensures forall c :: c in DropPadding(s) ==> c in s && c != '='
  {
    if s != [] {
      DropPaddingKeeps(s[1..]);
    }
  }

  /** `[::-1]`. */
  function Reverse(s: string): string {
    if s == [] then [] else Reverse(s[1..]) + [s[0]]
  }

  /** Position i of the reversed text holds position |s| - 1 - i of s. */
  lemma {:induction false} ReverseAt(s: string)
    ensures |Reverse(s)| == |s|
    ensures forall i :: 0 <= i < |s| ==> Reverse(s)[i] == s[|s| - 1 - i]
  {
    if s != [] {
      ReverseAt(s[1..]);
    }
  }

  /** The query-parameter value custom_link builds from the base64 text. */
  function Payload(base64: string): string {
    Reverse(DropPadding(SwapAll(base64)))
  }

  /** No `+`, `/` or `=` is left in the payload. */
  lemma PayloadIsUrlSafe(base64: string)
    ensures forall c :: c in Payload(base64) ==> !IsUrlUnsafe(c)
  {
    DropPaddingKeeps(SwapAll(base64));
    ReverseKeepsCharacters(DropPadding(SwapAll(base64)));
  }

  lemma ReverseKeepsCharacters(s: string)
    ensures forall c :: c in Reverse(s) ==> c in s
  {
    var r := Reverse(s);
    ReverseAt(s);
    forall c | c in r ensures c in s {
      var i :| 0 <= i < |r| && r[i] == c;
      assert s[|s| - 1 - i] == c;
    }
  }

  /** custom_link(uri, data): the URI, then `?z=`, then a payload in which no
      `+`, `/` or `=` is left. */
  function CustomLink(uri: string, data: string, compressToBase64: string -> string): (link: string)
    ensures |link| >= |uri| + 3
    ensures link[..|uri|] == uri && link[|uri|..|uri| + 3] == "?z="
    ensures forall c :: c in link[|uri| + 3..] ==> !IsUrlUnsafe(c)
    ensures link[|uri| + 3..] == Payload(compressToBase64(data))
  {
    var p := Payload(compressToBase64(data));
    PayloadIsUrlSafe(compressToBase64(data));
    assert (uri + "?z=" + p)[|uri| + 3..] == p;
    uri + "?z=" + p
  }

  /** What a consumer of the link does with the payload: reverse it, undo the
      character swap and pad it back to a multiple of four characters. */
  function UnswapUnsafe(c: char): char {
    if c == '-' then '+' else if c == '_' then '/' else c
  }

  function UnswapAll(s: string): string {
    seq(|s|, i requires 0 <= i < |s| => UnswapUnsafe(s[i]))
  }

  function Padding(k: nat): (pad: string)
    ensures |pad| == k && forall c :: c in pad ==> c == '='
  {
    if k == 0 then [] else Padding(k - 1) + "="
  }

  /** The number of `=` that brings a length of n up to a multiple of four. */
  function PaddingFor(n: nat): nat {
    (4 - n % 4) % 4
  }

  function RestoreBase64(payload: string): string {
    var t := UnswapAll(Reverse(payload));
    t + Padding(PaddingFor(|t|))
  }

  /** The payload is lossless: base64 text padded with at most three `=`
      (compressToBase64 pads up to a multiple of four) is recovered from it. */
  lemma PayloadRoundTrip(digits: string, k: nat)
    requires forall i :: 0 <= i < |digits| ==> IsBase64Digit(digits[i])
    requires k <= 3 && (|digits| + k) % 4 == 0
    ensures RestoreBase64(Payload(digits + Padding(k))) == digits + Padding(k)
  {
    PayloadOfPadded(digits, k);
    RestoreOfSwapped(digits, k);
  }

  /** The link carries the compressed data losslessly: when the compressor
      answers with padded base64 text, a consumer that takes the text after
      `?z=` and restores it gets the compressor's output back. */
  lemma CustomLinkRoundTrip(uri: string, data: string, compressToBase64: string -> string, digits: string, k: nat)
    requires compressToBase64(data) == digits + Padding(k)
    requires forall i :: 0 <= i < |digits| ==> IsBase64Digit(digits[i])
    requires k <= 3 && (|digits| + k) % 4 == 0
    ensures RestoreBase64(CustomLink(uri, data, compressToBase64)[|uri| + 3..]) == compressToBase64(data)
  {
    PayloadRoundTrip(digits, k);
  }

  lemma PayloadOfPadded(digits: string, k: nat)
    requires forall i :: 0 <= i < |digits| ==> IsBase64Digit(digits[i])
    ensures Payload(digits + Padding(k)) == Reverse(SwapAll(digits))
  {
    DropSwapped(digits, k);
  }

  lemma RestoreOfSwapped(digits: string, k: nat)
    requires forall i :: 0 <= i < |digits| ==> IsBase64Digit(digits[i])
    requires k <= 3 && (|digits| + k) % 4 == 0
    ensures RestoreBase64(Reverse(SwapAll(digits))) == digits + Padding(k)
  {
    var s := SwapAll(digits);
    ReverseReverse(s);
    UnswapSwap(digits);
    PaddingCount(|digits|, k);
    RestoreOf(Reverse(s), digits, k);
  }

  lemma RestoreOf(p: string, digits: string, k: nat)
    requires UnswapAll(Reverse(p)) == digits && PaddingFor(|digits|) == k
    ensures RestoreBase64(p) == digits + Padding(k)
  {
  }

  lemma DropSwapped(digits: string, k: nat)
    requires forall i :: 0 <= i < |digits| ==> IsBase64Digit(digits[i])
    ensures DropPadding(SwapAll(digits + Padding(k))) == SwapAll(digits)
  {
    var s := SwapAll(digits);
    var pad := Padding(k);
    forall i | 0 <= i < k ensures SwapUnsafe(pad[i]) == pad[i] {
      assert pad[i] in pad;
    }
    assert SwapAll(pad) == pad;
    assert SwapAll(digits + pad) == s + pad;
    DropPaddingAppend(s, Padding(k));
    DropPaddingOfPadding(k);
    assert '=' !in s;
    DropPaddingNone(s);
  }

  lemma UnswapSwap(digits: string)
    requires forall i :: 0 <= i < |digits| ==> IsBase64Digit(digits[i])
    ensures UnswapAll(SwapAll(digits)) == digits
  {
  }

  lemma PaddingCount(n: nat, k: nat)
    requires k <= 3 && (n + k) % 4 == 0
    ensures PaddingFor(n) == k
  {
  }

  lemma {:induction false} DropPaddingAppend(a: string, b: string)
    ensures DropPadding(a + b) == DropPadding(a) + DropPadding(b)
  {
    if a == [] {
      assert a + b == b;
    } else {
      assert (a + b)[0] == a[0] && (a + b)[1..] == a[1..] + b;
      DropPaddingAppend(a[1..], b);
    }
  }

  lemma {:induction false} DropPaddingOfPadding(k: nat)
    ensures DropPadding(Padding(k)) == []
  {
    if k > 0 {
      DropPaddingOfPadding(k - 1);
      DropPaddingAppend(Padding(k - 1), "=");
    }
  }

  lemma {:induction false} DropPaddingNone(s: string)
    requires '=' !in s
    ensures DropPadding(s) == s
  {
    if s != [] {
      DropPaddingNone(s[1..]);
    }
  }

  lemma ReverseReverse(s: string)
    ensures Reverse(Reverse(s)) == s
  {
    ReverseAt(s);
    ReverseAt(Reverse(s));
  }

}
