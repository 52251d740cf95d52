/** Firmware versions (shared/pc-remote-signing/src/lib.rs) and the notice about a newer one
    (shared/pc-remote-signing/src/firmware_notice.rs). */
module Versions {
  import opened Wrappers
  import opened Text

  const U64_LIMIT: nat := 0x1_0000_0000_0000_0000

  /** The three numbers of a version and everything from the first '-' or '+' on. */
  datatype Version = Version(major: nat, minor: nat, patch: nat, suffix: string)

  predicate StartsSuffix(c: char) {
    c == '-' || c == '+'
  }

  /** Length of the numeric part: the position of the first suffix character. */
  function NumericLength(s: string): (k: nat)
    ensures k <= |s| && (k < |s| ==> StartsSuffix(s[k]))
    ensures forall i :: 0 <= i < k ==> !StartsSuffix(s[i])
  {
    if s == "" || StartsSuffix(s[0]) then 0 else 1 + NumericLength(s[1..])
  }

  /** A number field: digits only, at least one, within 64 bits. Leading zeros pass. */
  predicate IsField(f: string) {
    f != "" && AllDigits(f) && NumeralValue(f) < U64_LIMIT
  }

  function Fields(version: string): seq<string> {
    Split(version[..NumericLength(version)], '.')
  }

  function Parse(version: string): Option<Version> {
    var fields := Fields(version);
    if |fields| == 3 && IsField(fields[0]) && IsField(fields[1]) && IsField(fields[2]) then
      Some(Version(NumeralValue(fields[0]), NumeralValue(fields[1]), NumeralValue(fields[2]),
        version[NumericLength(version)..]))
    else None
  }

  /** The parser proper: fills three slots from the fields, then demands that none is left. */
  method SplitVersion(version: string) returns (r: Option<Version>)
    ensures r == Parse(version)
  {
    var numericLength := NumericLength(version);
    var suffix := version[numericLength..];
    var fields := Split(version[..numericLength], '.');
    var parts := new nat[3](_ => 0);
    for slot := 0 to 3
      invariant slot <= |fields|
      invariant forall i :: 0 <= i < slot ==> IsField(fields[i]) && parts[i] == NumeralValue(fields[i])
    {
      if slot == |fields| {
        return None;
      }
      var part := fields[slot];
      if part == "" || exists i :: 0 <= i < |part| && !IsDigit(part[i]) {
        return None;
      }
      var value := NumeralValue(part);
      if value >= U64_LIMIT {
        return None;
      }
      parts[slot] := value;
    }
    if |fields| > 3 {
      return None;
    }
    return Some(Version(parts[0], parts[1], parts[2], suffix));
  }

  /** What a version string is, without a parser: three number fields joined by dots, then
      nothing or a suffix that starts with '-' or '+'. */
  ghost predicate Spells(version: string, v: Version, a: string, b: string, c: string) {
    && a != "" && AllDigits(a) && b != "" && AllDigits(b) && c != "" && AllDigits(c)
    && version == a + "." + b + "." + c + v.suffix
    && (v.suffix == "" || v.suffix[0] == '-' || v.suffix[0] == '+')
    && v.major < 0x1_0000_0000_0000_0000 && v.minor < 0x1_0000_0000_0000_0000 && v.patch < 0x1_0000_0000_0000_0000
    && v.major == NumeralValue(a) && v.minor == NumeralValue(b) && v.patch == NumeralValue(c)
  }

  lemma {:induction false} NumericLengthOf(s: string, t: string)
    requires forall i :: 0 <= i < |s| ==> !StartsSuffix(s[i])
    requires t == "" || StartsSuffix(t[0])
    ensures NumericLength(s + t) == |s|
  {
    if s == "" {
      assert s + t == t;
    } else {
      assert (s + t)[1..] == s[1..] + t;
      NumericLengthOf(s[1..], t);
    }
  }

  /** The parser accepts exactly the strings that spell a version, and reads that version. */
  lemma ParseReadsWhatIsSpelled(version: string, v: Version)
    ensures Parse(version) == Some(v) <==> exists a, b, c :: Spells(version, v, a, b, c)
  {
    if Parse(version) == Some(v) {
      var f := Fields(version);
      var k := NumericLength(version);
      JoinOfSplit(version[..k], '.');
      assert f[1..] == [f[1], f[2]] && f[1..][1..] == [f[2]];
      assert Join(f[1..], '.') == f[1] + ['.'] + Join(f[1..][1..], '.') == f[1] + ['.'] + f[2];
      assert version[..k] == f[0] + ['.'] + (f[1] + ['.'] + f[2]);
      assert version == version[..k] + version[k..];
      assert Spells(version, v, f[0], f[1], f[2]);
    }
    forall a, b, c | Spells(version, v, a, b, c) ensures Parse(version) == Some(v) {
      SpelledIsParsed(version, v, a, b, c);
    }
  }

  lemma SpelledIsParsed(version: string, v: Version, a: string, b: string, c: string)
    requires Spells(version, v, a, b, c)
    ensures Parse(version) == Some(v)
  {
    hide NumeralValue;
    var s := a + "." + b + "." + c;
    assert version == s + v.suffix;
    NumericLengthOf(s, v.suffix);
    assert version[..|s|] == s && version[|s|..] == v.suffix;
    assert s == a + ['.'] + (b + ['.'] + c);
    SplitFirst(a, b + ['.'] + c, '.');
    SplitFirst(b, c, '.');
    SplitWhole(c, '.');
    assert Fields(version) == [a] + ([b] + [c]);
  }

  /** Parsing inverts printing, for every triple of 64-bit numbers and every suffix. */
  lemma ParseInvertsPrinting(v: Version)
    requires v.major < 0x1_0000_0000_0000_0000
    requires v.minor < 0x1_0000_0000_0000_0000
    requires v.patch < 0x1_0000_0000_0000_0000
    requires v.suffix == "" || v.suffix[0] == '-' || v.suffix[0] == '+'
    ensures Parse(DecimalNat(v.major) + "." + DecimalNat(v.minor) + "." + DecimalNat(v.patch) + v.suffix) == Some(v)
  {
    NumeralOfDecimal(v.major);
    NumeralOfDecimal(v.minor);
    NumeralOfDecimal(v.patch);
    hide DecimalNat, NumeralValue;
    var a, b, c := DecimalNat(v.major), DecimalNat(v.minor), DecimalNat(v.patch);
    SpelledIsParsed(a + "." + b + "." + c + v.suffix, v, a, b, c);
  }

  // ---------- Order ----------

  datatype VersionOrder = Newer | Same | Older | Unknown

  /** Lexicographic order of the triples; the suffix does not take part. */
  predicate Below(a: Version, b: Version) {
    || a.major < b.major
    || (a.major == b.major && (a.minor < b.minor || (a.minor == b.minor && a.patch < b.patch)))
  }

  /** How the offered version compares with the current one. */
  function CompareVersions(current: string, offered: string): VersionOrder {
    match (Parse(current), Parse(offered))
    case (Some(cur), Some(off)) =>
      if Below(cur, off) then Newer
      else if Below(off, cur) then Older
      else if cur.suffix == off.suffix then Same
      else Unknown
    case _ => Unknown
  }

  /** The order is decided by the major numbers, then the minor, then the patch numbers. Equal
      numbers mean the same version only if the suffixes agree too. */
  lemma MajorDecidesFirst(a: string, b: string)
    ensures CompareVersions(a, b) == Newer <==>
      && Parse(a).Some? && Parse(b).Some?
      && var x, y := Parse(a).value, Parse(b).value;
         || x.major < y.major
         || (x.major == y.major && x.minor < y.minor)
         || (x.major == y.major && x.minor == y.minor && x.patch < y.patch)
    ensures CompareVersions(a, b) == Older <==>
      && Parse(a).Some? && Parse(b).Some?
      && var x, y := Parse(a).value, Parse(b).value;
         || x.major > y.major
         || (x.major == y.major && x.minor > y.minor)
         || (x.major == y.major && x.minor == y.minor && x.patch > y.patch)
    ensures CompareVersions(a, b) == Same <==> Parse(a).Some? && Parse(a) == Parse(b)
  {
    hide Parse;
  }

  /** Swapping the arguments swaps newer and older and nothing else. */
  lemma ComparisonIsAntisymmetric(a: string, b: string)
    ensures CompareVersions(a, b) == Newer <==> CompareVersions(b, a) == Older
    ensures CompareVersions(a, b) == Same <==> CompareVersions(b, a) == Same
    ensures CompareVersions(a, b) == Unknown <==> CompareVersions(b, a) == Unknown
    ensures CompareVersions(a, b) == Same <==> Parse(a).Some? && Parse(a) == Parse(b)
  {
    hide Parse;
  }

  /** Newer is transitive, and a version with the same numbers changes no verdict. */
  lemma ComparisonIsTransitive(a: string, b: string, c: string)
    requires CompareVersions(a, b) == Newer
    ensures CompareVersions(b, c) == Newer ==> CompareVersions(a, c) == Newer
    ensures CompareVersions(b, c) == Same ==> CompareVersions(a, c) == Newer
    ensures Parse(c).Some? && CompareVersions(b, c) == Unknown ==> CompareVersions(a, c) == Newer
  {
    hide Parse;
  }

  // ---------- The notice ----------

  datatype FirmwareNotice = FirmwareNotice(lastNotified: Option<string>) {
    function Observe(current: string, verifiedVersion: Option<string>): (FirmwareNotice, bool) {
      match verifiedVersion
      case None => (this, false)
      case Some(offered) =>
        if CompareVersions(current, offered) != Newer then (this, false)
        else if lastNotified.Some? && CompareVersions(lastNotified.value, offered) != Newer then (this, false)
        else (FirmwareNotice(Some(offered)), true)
    }
  }

  function NoticeAfter(current: string, offers: seq<Option<string>>): FirmwareNotice {
    if offers == [] then FirmwareNotice(None)
    else NoticeAfter(current, offers[..|offers| - 1]).Observe(current, offers[|offers| - 1]).0
  }

  predicate Notifies(current: string, offers: seq<Option<string>>, k: int)
    requires 0 <= k < |offers|
  {
    NoticeAfter(current, offers[..k]).Observe(current, offers[k]).1
  }

  predicate ParsedOffer(offer: Option<string>) {
    offer.Some? && Parse(offer.value).Some?
  }

  function OfferedVersion(offer: Option<string>): Version
    requires ParsedOffer(offer)
  {
    Parse(offer.value).value
  }

  /** The notice remembers the highest offer that exceeds the current version. */
  ghost predicate RemembersHighest(n: FirmwareNotice, cur: Version, offers: seq<Option<string>>) {
    match n.lastNotified
    case None =>
      forall i :: 0 <= i < |offers| && ParsedOffer(offers[i]) ==> !Below(cur, OfferedVersion(offers[i]))
    case Some(s) =>
      && ParsedOffer(Some(s)) && Below(cur, OfferedVersion(Some(s))) && Some(s) in offers
      && forall i :: 0 <= i < |offers| && ParsedOffer(offers[i]) ==>
           !Below(OfferedVersion(Some(s)), OfferedVersion(offers[i]))
  }

  lemma {:induction false} NoticeRemembersHighest(current: string, offers: seq<Option<string>>)
    requires Parse(current).Some?
    ensures RemembersHighest(NoticeAfter(current, offers), Parse(current).value, offers)
  {
    hide Parse;
    if offers != [] {
      var before := offers[..|offers| - 1];
      NoticeRemembersHighest(current, before);
      assert forall i :: 0 <= i < |offers| ==> offers[i] == if i < |before| then before[i] else offers[|offers| - 1];
    }
  }

  /** `v` is the later version, number by number. */
  ghost predicate Exceeds(v: Version, w: Version) {
    || v.major > w.major
    || (v.major == w.major && v.minor > w.minor)
    || (v.major == w.major && v.minor == w.minor && v.patch > w.patch)
  }

  /** Over any sequence of offers, a notice is given exactly at the offers that exceed both the
      current version and every earlier offer. */
  lemma NotifiesAtNewMaxima(current: string, offers: seq<Option<string>>, k: int)
    requires 0 <= k < |offers|
    ensures Notifies(current, offers, k) <==>
      && Parse(current).Some? && offers[k].Some? && Parse(offers[k].value).Some?
      && var v := Parse(offers[k].value).value;
         && Exceeds(v, Parse(current).value)
         && forall i :: 0 <= i < k && offers[i].Some? && Parse(offers[i].value).Some? ==>
              Exceeds(v, Parse(offers[i].value).value)
  {
    hide Parse;
    if Parse(current).Some? {
      var before := offers[..k];
      NoticeRemembersHighest(current, before);
      assert forall i :: 0 <= i < k ==> before[i] == offers[i];
    }
  }
}
