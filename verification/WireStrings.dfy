/** The strings that firmware and bridge sign (shared/pc-remote-signing/src/lib.rs). The keyed
    MAC (RFC 2104, section 2) and SHA-256 (FIPS 180-4) are arbitrary functions here; what is
    proved is that the text handed to them determines what was meant. */
module WireStrings {
  import opened Wrappers
  import opened Text

  type Bytes = seq<bv8>

  function UpperChar(c: char): char {
    if 'a' <= c <= 'z' then (c as int - 'a' as int + 'A' as int) as char else c
  }

  /** `to_ascii_uppercase` */
  function Upper(s: string): string {
    seq(|s|, i requires 0 <= i < |s| => UpperChar(s[i]))
  }

  /** METHOD, path, timestamp, nonce and body hash, one a line. */
  function CanonicalString(method': string, path: string, timestamp: int, nonce: string, bodyHash: string): string {
    Upper(method') + [NEWLINE] + path + [NEWLINE] + DecimalInt(timestamp) + [NEWLINE] + nonce + [NEWLINE] + bodyHash
  }

  const MANIFEST_TAG := "FIRMWARE-MANIFEST-v1"

  function ManifestCanonicalString(version: string, size: nat, sha256: string, createdAt: string): string {
    MANIFEST_TAG + [NEWLINE] + version + [NEWLINE] + DecimalNat(size) + [NEWLINE] + sha256 + [NEWLINE] + createdAt
  }

  predicate OneLine(s: string) {
    NEWLINE !in s
  }

  lemma UpperKeepsLines(s: string)
    ensures OneLine(Upper(s)) <==> OneLine(s)
  {
    assert forall i :: 0 <= i < |s| ==> (Upper(s)[i] == NEWLINE <==> s[i] == NEWLINE);
    assert NEWLINE in s ==> exists i :: 0 <= i < |s| && Upper(s)[i] == NEWLINE;
  }

  /** The signed text of a POST, line by line. */
  lemma SignedRequestLines(path: string, timestamp: int, nonce: string, hash: string)
    ensures CanonicalString("post", path, timestamp, nonce, hash) ==
      "POST\n" + path + "\n" + DecimalInt(timestamp) + "\n" + nonce + "\n" + hash
  {
    hide DecimalInt;
    assert Upper("post") == "POST";
    assert "POST" + [NEWLINE] == "POST\n";
  }

  lemma UpperIsAscii(s: string, i: int)
    requires 0 <= i < |s|
    ensures |Upper(s)| == |s|
    ensures Upper(s)[i] as int == if 97 <= s[i] as int <= 122 then s[i] as int - 32 else s[i] as int
  {
  }

  // ---------- Requests ----------

  /** The request string determines its fields when method and nonce hold no newline; the path
      may hold any character. The timestamp and a hex hash never hold one. */
  lemma CanonicalStringIsInjective(
    m: string, p: string, t: int, n: string, h: string, m': string, p': string, t': int, n': string, h': string)
    requires OneLine(m) && OneLine(n) && OneLine(h) && OneLine(m') && OneLine(n') && OneLine(h')
    requires CanonicalString(m, p, t, n, h) == CanonicalString(m', p', t', n', h')
    ensures Upper(m) == Upper(m') && p == p' && t == t' && n == n' && h == h'
  {
    UpperKeepsLines(m);
    UpperKeepsLines(m');
    DecimalIntHasNoSeparator(t, NEWLINE);
    DecimalIntHasNoSeparator(t', NEWLINE);
    hide Upper, DecimalInt;
    var a, a' := Upper(m) + [NEWLINE] + p, Upper(m') + [NEWLINE] + p';
    var b, b' := a + [NEWLINE] + DecimalInt(t), a' + [NEWLINE] + DecimalInt(t');
    PeelRight(b + [NEWLINE] + n, h, b' + [NEWLINE] + n', h', NEWLINE);
    PeelRight(b, n, b', n', NEWLINE);
    PeelRight(a, DecimalInt(t), a', DecimalInt(t'), NEWLINE);
    PeelLeft(Upper(m), p, Upper(m'), p', NEWLINE);
    DecimalIntIsInjective(t, t');
  }

  /** It also does when method and path hold no newline, whatever the nonce holds. */
  lemma CanonicalStringIsInjectiveForAnyNonce(
    m: string, p: string, t: int, n: string, h: string, m': string, p': string, t': int, n': string, h': string)
    requires OneLine(m) && OneLine(p) && OneLine(h) && OneLine(m') && OneLine(p') && OneLine(h')
    requires CanonicalString(m, p, t, n, h) == CanonicalString(m', p', t', n', h')
    ensures Upper(m) == Upper(m') && p == p' && t == t' && n == n' && h == h'
  {
    UpperKeepsLines(m);
    UpperKeepsLines(m');
    DecimalIntHasNoSeparator(t, NEWLINE);
    DecimalIntHasNoSeparator(t', NEWLINE);
    hide Upper, DecimalInt;
    var c, c' := n + [NEWLINE] + h, n' + [NEWLINE] + h';
    var b, b' := DecimalInt(t) + [NEWLINE] + c, DecimalInt(t') + [NEWLINE] + c';
    var a, a' := p + [NEWLINE] + b, p' + [NEWLINE] + b';
    LinesFromTheRight(Upper(m), p, DecimalInt(t), n, h);
    LinesFromTheRight(Upper(m'), p', DecimalInt(t'), n', h');
    PeelLeft(Upper(m), a, Upper(m'), a', NEWLINE);
    PeelLeft(p, b, p', b', NEWLINE);
    PeelLeft(DecimalInt(t), c, DecimalInt(t'), c', NEWLINE);
    PeelRight(n, h, n', h', NEWLINE);
    DecimalIntIsInjective(t, t');
  }

  lemma LinesFromTheRight(a: string, b: string, c: string, d: string, e: string)
    ensures a + [NEWLINE] + b + [NEWLINE] + c + [NEWLINE] + d + [NEWLINE] + e
         == a + [NEWLINE] + (b + [NEWLINE] + (c + [NEWLINE] + (d + [NEWLINE] + e)))
  {
    var ce := c + [NEWLINE] + (d + [NEWLINE] + e);
    assert c + [NEWLINE] + d + [NEWLINE] + e == ce;
    assert b + [NEWLINE] + c + [NEWLINE] + d + [NEWLINE] + e == b + [NEWLINE] + ce;
  }

  /** A newline in both path and nonce would let two requests share a string, so one of the two
      must be one line. Here the nonce always is: it travels in an HTTP header, which cannot
      carry a newline, and the bridge accepts no such nonce. */
  lemma NewlinesCollide()
    ensures CanonicalString("GET", "/a\n1", 2, "n", "h") == CanonicalString("GET", "/a", 1, "2\nn", "h")
  {
    assert DecimalInt(1) == "1" && DecimalInt(2) == "2";
    var g := Upper("GET") + [NEWLINE];
    assert CanonicalString("GET", "/a\n1", 2, "n", "h") == g + "/a\n1\n2\nn\nh";
    assert CanonicalString("GET", "/a", 1, "2\nn", "h") == g + "/a\n1\n2\nn\nh";
  }

  // ---------- Manifests ----------

  predicate IsHexChar(c: char) {
    '0' <= c <= '9' || 'a' <= c <= 'f' || 'A' <= c <= 'F'
  }

  predicate IsHex(s: string) {
    |s| % 2 == 0 && forall i :: 0 <= i < |s| ==> IsHexChar(s[i])
  }

  /** The manifest string determines its fields for a one-line version and a hex hash. */
  lemma ManifestStringIsInjective(
    v: string, size: nat, sha: string, at: string, v': string, size': nat, sha': string, at': string)
    requires OneLine(v) && OneLine(v') && IsHex(sha) && IsHex(sha')
    requires ManifestCanonicalString(v, size, sha, at) == ManifestCanonicalString(v', size', sha', at')
    ensures v == v' && size == size' && sha == sha' && at == at'
  {
    hide DecimalNat;
    assert OneLine(sha) && OneLine(sha');
    var d, d' := DecimalNat(size), DecimalNat(size');
    var c, c' := sha + [NEWLINE] + at, sha' + [NEWLINE] + at';
    var b, b' := d + [NEWLINE] + c, d' + [NEWLINE] + c';
    var a, a' := v + [NEWLINE] + b, v' + [NEWLINE] + b';
    assert ManifestCanonicalString(v, size, sha, at) == MANIFEST_TAG + [NEWLINE] + a;
    assert ManifestCanonicalString(v', size', sha', at') == MANIFEST_TAG + [NEWLINE] + a';
    PeelLeft(MANIFEST_TAG, a, MANIFEST_TAG, a', NEWLINE);
    PeelLeft(v, b, v', b', NEWLINE);
    PeelLeft(d, c, d', c', NEWLINE);
    PeelLeft(sha, at, sha', at', NEWLINE);
    NumeralOfDecimal(size);
    NumeralOfDecimal(size');
  }

  /** No request string is a manifest string, whatever the fields hold: the first line of a
      request has no lower-case letter, the manifest tag has one. */
  lemma SigningDomainsAreDisjoint(
    m: string, p: string, t: int, n: string, h: string, v: string, size: nat, sha: string, at: string)
    ensures CanonicalString(m, p, t, n, h) != ManifestCanonicalString(v, size, sha, at)
  {
    var r, f := CanonicalString(m, p, t, n, h), ManifestCanonicalString(v, size, sha, at);
    hide DecimalInt, DecimalNat;
    assert forall i :: 0 <= i <= 18 ==> f[i] != NEWLINE;
    assert f[18] == 'v';
    assert |m| < |r| && r[|m|] == NEWLINE;
    assert forall i :: 0 <= i < |m| ==> r[i] == UpperChar(m[i]);
    if |m| > 18 {
      assert r[18] != 'v';
    } else {
      assert r != f;
    }
  }

  // ---------- Verification ----------

  datatype Manifest = Manifest(version: string, size: nat, sha256: string, createdAt: string, signature: string)

  datatype ManifestError = InvalidJson | InvalidField(name: string) | SignatureMismatch

  function CheckManifestFields(m: Manifest): Result<(), ManifestError> {
    if m.version == "" then Err(InvalidField("version"))
    else if m.size == 0 then Err(InvalidField("size"))
    else if |m.sha256| != 64 || !IsHex(m.sha256) then Err(InvalidField("sha256"))
    else if m.createdAt == "" then Err(InvalidField("created_at"))
    else if m.signature == "" then Err(InvalidField("signature"))
    else Ok(())
  }

  function LowerChar(c: char): char {
    if 'A' <= c <= 'F' then (c as int - 'A' as int + 'a' as int) as char else c
  }

  /** A signature is compared as bytes, so the case of its hex digits does not matter. `mac`
      gives the lower-case hex MAC of a text under the shared secret. */
  predicate SignatureMatches(mac: string -> string, text: string, signature: string) {
    IsHex(signature) && LowerHex(signature) == mac(text)
  }

  function LowerHex(s: string): string {
    seq(|s|, i requires 0 <= i < |s| => LowerChar(s[i]))
  }

  /** `a` and `b` are one hex digit; `b` is the lower-case one. */
  ghost predicate SameDigit(a: char, b: char) {
    exists d :: 0 <= d < 16 && b == "0123456789abcdef"[d] && (a == b || a == "0123456789ABCDEF"[d])
  }

  /** A signature carries a digest: as many digits, each the same up to letter case. */
  ghost predicate Carries(signature: string, digest: string) {
    && |signature| == |digest| && |digest| % 2 == 0
    && forall i :: 0 <= i < |digest| ==> SameDigit(signature[i], digest[i])
  }

  lemma SignatureMatchesIsMac(mac: string -> string, text: string, signature: string)
    ensures SignatureMatches(mac, text, signature) <==> Carries(signature, mac(text))
  {
    var digest := mac(text);
    if SignatureMatches(mac, text, signature) {
      forall i | 0 <= i < |digest| ensures SameDigit(signature[i], digest[i]) {
        assert digest[i] == LowerChar(signature[i]) && IsHexChar(signature[i]);
        HexDigits(signature[i], digest[i]);
      }
    }
    if Carries(signature, digest) {
      forall i | 0 <= i < |digest| ensures IsHexChar(signature[i]) && LowerChar(signature[i]) == digest[i] {
        HexDigits(signature[i], digest[i]);
      }
      assert LowerHex(signature) == digest;
    }
  }

  lemma HexDigits(a: char, b: char)
    ensures SameDigit(a, b) <==> IsHexChar(a) && LowerChar(a) == b
  {
    if '0' <= a <= '9' {
      assert "0123456789abcdef"[a as int - '0' as int] == a;
    } else if 'a' <= a <= 'f' {
      assert "0123456789abcdef"[10 + a as int - 'a' as int] == a;
    } else if 'A' <= a <= 'F' {
      assert "0123456789ABCDEF"[10 + a as int - 'A' as int] == a;
    }
  }

  /** Fields that a distributed manifest can have. */
  ghost predicate PlausibleFields(m: Manifest) {
    && m.version != "" && m.size > 0 && m.createdAt != "" && m.signature != "" && |m.sha256| == 64
    && forall i :: 0 <= i < 64 ==> m.sha256[i] in "0123456789abcdefABCDEF"
  }

  /** The first field that cannot be right is named. */
  lemma FieldErrors(m: Manifest)
    ensures CheckManifestFields(m).Ok? <==> PlausibleFields(m)
    ensures m.version == "" ==> CheckManifestFields(m) == Err(InvalidField("version"))
    ensures m.version != "" && m.size == 0 ==> CheckManifestFields(m) == Err(InvalidField("size"))
    ensures m.version != "" && m.size > 0 && |m.sha256| != 64 ==>
      CheckManifestFields(m) == Err(InvalidField("sha256"))
    ensures PlausibleFields(m.(createdAt := "x", signature := "x")) && m.createdAt == "" ==>
      CheckManifestFields(m) == Err(InvalidField("created_at"))
    ensures PlausibleFields(m.(signature := "x")) && m.signature == "" ==>
      CheckManifestFields(m) == Err(InvalidField("signature"))
  {
    forall i | 0 <= i < |m.sha256| ensures m.sha256[i] in "0123456789abcdefABCDEF" <==> IsHexChar(m.sha256[i]) {
      HexChars(m.sha256[i]);
    }
  }

  lemma HexChars(c: char)
    ensures c in "0123456789abcdefABCDEF" <==> IsHexChar(c)
  {
    var digits := "0123456789abcdefABCDEF";
    if '0' <= c <= '9' {
      assert digits[c as int - '0' as int] == c;
    } else if 'a' <= c <= 'f' {
      assert digits[10 + c as int - 'a' as int] == c;
    } else if 'A' <= c <= 'F' {
      assert digits[16 + c as int - 'A' as int] == c;
    }
  }

  /** The text whose MAC a manifest must carry. */
  ghost function ManifestText(m: Manifest): string {
    "FIRMWARE-MANIFEST-v1\n" + m.version + "\n" + DecimalNat(m.size) + "\n" + m.sha256 + "\n" + m.createdAt
  }

  /** A manifest is accepted exactly if its fields are plausible and it carries the MAC of its
      text, so that one with a wrong digit is refused and one with the MAC itself is accepted. */
  lemma VerifiedExactlyWhen(mac: string -> string, m: Manifest)
    ensures ManifestVerified(mac, m) <==> PlausibleFields(m) && Carries(m.signature, mac(ManifestText(m)))
  {
    FieldErrors(m);
    SignatureMatchesIsMac(mac, ManifestText(m), m.signature);
    hide PlausibleFields, Carries, SignatureMatches, CheckManifestFields, DecimalNat;
    assert MANIFEST_TAG + [NEWLINE] == "FIRMWARE-MANIFEST-v1\n";
    assert ManifestCanonicalString(m.version, m.size, m.sha256, m.createdAt) == ManifestText(m);
  }

  predicate ManifestVerified(mac: string -> string, m: Manifest) {
    && CheckManifestFields(m).Ok?
    && SignatureMatches(mac, ManifestCanonicalString(m.version, m.size, m.sha256, m.createdAt), m.signature)
  }
}
