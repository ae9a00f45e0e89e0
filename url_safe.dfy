/** The URL-safe form of a base64 token (base64url, section 5 of RFC 4648,
    with the padding omitted as section 3.2 allows): the `replace` chain of
    `encodeState` (script.js:77-80) and the replace-and-pad steps of
    `decodeState` (script.js:84-85). */
module UrlSafe {

  /** A character of the standard base64 alphabet (section 4 of RFC 4648). */
  predicate IsStdChar(c: char) {
    'A' <= c <= 'Z' || 'a' <= c <= 'z' || '0' <= c <= '9' || c == '+' || c == '/'
  }

  /** Padded standard base64 text: a multiple of four characters from the
      alphabet, of which at most the last two are `=`. */
  predicate IsStdBase64(b: string) {
    |b| % 4 == 0 &&
    forall i :: 0 <= i < |b| ==>
      IsStdChar(b[i]) || (b[i] == '=' && |b| - 2 <= i && (i == |b| - 2 ==> b[|b| - 1] == '='))
  }

  function ToUrlChar(c: char): char {
    if c == '+' then '-' else if c == '/' then '_' else c
  }

  function FromUrlChar(c: char): char {
    if c == '-' then '+' else if c == '_' then '/' else c
  }

  /** `.replace(/\+/g, "-").replace(/\//g, "_")` */
  function ToUrlAlphabet(s: string): (r: string)
    ensures |r| == |s|
    ensures forall i :: 0 <= i < |r| ==> r[i] != '+' && r[i] != '/'
  {
    seq(|s|, i requires 0 <= i < |s| => ToUrlChar(s[i]))
  }

  /** `.replace(/-/g, "+").replace(/_/g, "/")` */
  function FromUrlAlphabet(s: string): (r: string)
    ensures |r| == |s|
    ensures forall i :: 0 <= i < |r| ==> r[i] != '-' && r[i] != '_'
  {
    seq(|s|, i requires 0 <= i < |s| => FromUrlChar(s[i]))
  }

  /** `.replace(/=+$/g, "")`: drops the whole run of trailing `=`. */
  function StripPadding(s: string): (r: string)
    ensures |r| <= |s| && r == s[..|r|]
    ensures r == [] || r[|r| - 1] != '='
    ensures forall i :: |r| <= i < |s| ==> s[i] == '='
    decreases |s|
  {
    if |s| > 0 && s[|s| - 1] == '=' then StripPadding(s[..|s| - 1]) else s
  }

  /** `s + "=".repeat((4 - (s.length % 4)) % 4)` */
  function Pad(s: string): (r: string)
    ensures |r| % 4 == 0 && |s| <= |r| < |s| + 4
    ensures r[..|s|] == s
    ensures forall i :: |s| <= i < |r| ==> r[i] == '='
  {
    s + seq((4 - |s| % 4) % 4, _ => '=')
  }

  /** The URL-safe step of the encoder: no `+`, no `/`, no trailing `=`. */
  function ToUrlSafe(b: string): (t: string)
    ensures forall i :: 0 <= i < |t| ==> t[i] != '+' && t[i] != '/'
    ensures t == [] || t[|t| - 1] != '='
  {
    StripPadding(ToUrlAlphabet(b))
  }

  /** The first step of the decoder: back to the standard alphabet, padded
      to a multiple of four. */
  function FromUrlSafe(t: string): (b: string)
    ensures |b| % 4 == 0
  {
    Pad(FromUrlAlphabet(t))
  }

  /** Padding text cut `p` characters short of a multiple of four adds
      exactly `p` characters back. */
  lemma PadRestores(m: nat, p: nat)
    requires m % 4 == 0 && p <= 2 && p <= m
    ensures (4 - (m - p) % 4) % 4 == p
  {
    if p > 0 {
      assert m - p == 4 * (m / 4 - 1) + (4 - p);
    }
  }

  /** Stripping stops exactly at the last character that is not `=`. */
  lemma {:induction false} StripExact(s: string, m: nat)
    requires m <= |s|
    requires m > 0 ==> s[m - 1] != '='
    requires forall i :: m <= i < |s| ==> s[i] == '='
    ensures StripPadding(s) == s[..m]
    decreases |s|
  {
    if |s| > m {
      var shorter := s[..|s| - 1];
      StripExact(shorter, m);
      assert shorter[..m] == s[..m];
    }
  }

  /** Padded base64 text splits into alphabet characters followed by a
      run of at most two `=`. */
  lemma PaddingRun(b: string) returns (m: nat)
    requires IsStdBase64(b)
    ensures m <= |b| && |b| - m <= 2
    ensures forall i :: 0 <= i < m ==> IsStdChar(b[i])
    ensures forall i :: m <= i < |b| ==> b[i] == '='
  {
    var n := |b|;
    m := if n > 0 && b[n - 1] == '=' then (if b[n - 2] == '=' then n - 2 else n - 1) else n;
  }

  /** Decoding undoes encoding on every padded standard base64 text. */
  lemma UrlSafeRoundTrip(b: string)
    requires IsStdBase64(b)
    ensures FromUrlSafe(ToUrlSafe(b)) == b
  {
    var m := PaddingRun(b);
    var s := ToUrlAlphabet(b);
    StripExact(s, m);
    var u := FromUrlAlphabet(s[..m]);
    assert u == b[..m];
    PadRestores(|b|, |b| - m);
    assert Pad(u) == b[..m] + b[m..];
  }

  /** Encoding undoes decoding on every token the encoder can produce:
      one with no `+`, no `/` and no trailing `=`. */
  lemma TokenRoundTrip(t: string)
    requires forall i :: 0 <= i < |t| ==> t[i] != '+' && t[i] != '/'
    requires t == [] || t[|t| - 1] != '='
    ensures ToUrlSafe(FromUrlSafe(t)) == t
  {
    var u := FromUrlAlphabet(t);
    var b := Pad(u);
    var s := ToUrlAlphabet(b);
    assert forall i :: 0 <= i < |t| ==> s[i] == t[i] by {
      forall i | 0 <= i < |t| ensures s[i] == t[i] {
        assert b[i] == b[..|u|][i] == u[i];
      }
    }
    StripExact(s, |t|);
    assert s[..|t|] == t;
  }
}
