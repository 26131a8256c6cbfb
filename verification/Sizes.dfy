/**
 * VM sizes as text: the unit suffixes, the two parsers, the printer, and the values that are set
 * on a VM. Decimal numerals are exact here.
 */
module Sizes {
  import opened Text

  const MIB := 1024 * 1024
  const GIB := 1024 * 1024 * 1024

  datatype Split = Split(number: string, unit: char)

  function StripUnitSuffix(s: string): Split {
    if EndsWith(s, "GiB") then Split(s[..|s| - 3], 'G')
    else if EndsWith(s, "MiB") then Split(s[..|s| - 3], 'M')
    else if EndsWith(s, "KiB") then Split(s[..|s| - 3], 'K')
    else if EndsWith(s, "TiB") then Split(s[..|s| - 3], 'T')
    else if EndsWith(s, "GB") then Split(s[..|s| - 2], 'G')
    else if EndsWith(s, "MB") then Split(s[..|s| - 2], 'M')
    else if EndsWith(s, "KB") then Split(s[..|s| - 2], 'K')
    else if EndsWith(s, "TB") then Split(s[..|s| - 2], 'T')
    else if |s| > 1 && s[|s| - 1] in "GgMmKkTt" then Split(s[..|s| - 1], s[|s| - 1])
    else Split(s, 'B')
  }

  function MemoryOf(p: Split): int {
    match Lower(p.unit)
    case 'g' => Truncate(ToF(p.number) * 1024.0)
    case 'm' => Truncate(ToF(p.number))
    case 'k' => Truncate(ToF(p.number) / 1024.0)
    case 't' => Truncate(ToF(p.number) * 1024.0 * 1024.0)
    case _ => ToI(p.number) / MIB
  }

  function DiskOf(p: Split): int {
    match Lower(p.unit)
    case 'g' => Truncate(ToF(p.number))
    case 'm' => Truncate(ToF(p.number) / 1024.0)
    case 't' => Truncate(ToF(p.number) * 1024.0)
    case _ => ToI(p.number) / GIB
  }

  /** The number and the unit that both parsers see. */
  function SplitOf(text: string): Split {
    StripUnitSuffix(Strip(text))
  }

  function ParseMemoryToMb(text: string): int {
    if Strip(text) == "" then 0 else MemoryOf(SplitOf(text))
  }

  function ParseDiskToGb(text: string): int {
    if Strip(text) == "" then 0 else DiskOf(SplitOf(text))
  }

  // --------------------------------------------------------- the parsers agree

  lemma FloorOfFloor(x: real)
    requires x >= 0.0
    ensures x.Floor / 1024 == (x / 1024.0).Floor
  {
    var q := (x / 1024.0).Floor;
    assert q as real <= x / 1024.0 < q as real + 1.0;
    assert (q * 1024) as real <= x < (q * 1024 + 1024) as real;
    assert q * 1024 <= x.Floor < q * 1024 + 1024;
  }

  lemma IntFloors(n: int)
    ensures n / MIB / 1024 == n / GIB
  {
    var q := n / GIB;
    assert q * GIB <= n < q * GIB + GIB;
    assert q * 1024 <= n / MIB < q * 1024 + 1024;
  }

  lemma SplitsAgree(p: Split)
    requires ToF(p.number) >= 0.0 && Lower(p.unit) != 'k'
    ensures DiskOf(p) == MemoryOf(p) / 1024
  {
    var x := ToF(p.number);
    match Lower(p.unit) {
      case 'g' => FloorOfFloor(x * 1024.0);
      case 'm' => FloorOfFloor(x);
      case 't' => FloorOfFloor(x * 1024.0 * 1024.0);
      case _ => IntFloors(ToI(p.number));
    }
  }

  /**
   * For every size string that is not negative and not in K, whatever the spelling of its unit,
   * the disk parser gives the whole GBs of what the memory parser gives in MB.
   */
  lemma ParsersAgree(text: string)
    requires ToF(SplitOf(text).number) >= 0.0
    requires Lower(SplitOf(text).unit) != 'k'
    ensures ParseDiskToGb(text) == ParseMemoryToMb(text) / 1024
  {
    if Strip(text) != "" {
      SplitsAgree(SplitOf(text));
    }
  }

  lemma SplitsAgreeInKIff(p: Split)
    requires ToF(p.number) >= 0.0 && Lower(p.unit) == 'k'
    ensures DiskOf(p) == MemoryOf(p) / 1024 <==> ToF(p.number) < 1048576.0
  {
    var x := ToF(p.number);
    ToIIsTruncatedToF(p.number);
    FloorOfFloor(x);
    KilobytesAsBytes(x.Floor);
    assert x < 1048576.0 <==> x.Floor < MIB;
  }

  /** In K the disk parser reads the number as bytes, so the two agree exactly below 1 GiB. */
  lemma ParsersAgreeInKIff(text: string)
    requires ToF(SplitOf(text).number) >= 0.0
    requires Strip(text) != "" && Lower(SplitOf(text).unit) == 'k'
    ensures ParseDiskToGb(text) == ParseMemoryToMb(text) / 1024 <==> ToF(SplitOf(text).number) < 1048576.0
  {
    SplitsAgreeInKIff(SplitOf(text));
  }

  lemma KilobytesAsBytes(n: nat)
    ensures n / GIB == n / 1024 / 1024 <==> n < MIB
  {
    var q := n / MIB;
    assert q * MIB <= n < q * MIB + MIB;
    assert q * 1024 <= n / 1024 < q * 1024 + 1024;
    assert n / 1024 / 1024 == q;
    var g := n / GIB;
    assert g * GIB <= n < g * GIB + GIB;
  }

  // ------------------------------------------------ what is set can be read back

  function MemorySetting(mb: int): string { PrintInt(mb) + "M" }
  function DiskSetting(gb: int): string { PrintInt(gb) + "G" }

  lemma DoesNotEnd(s: string, suffix: string, back: nat)
    requires 1 <= back <= |s| && back <= |suffix| && s[|s| - back] != suffix[|suffix| - back]
    ensures !EndsWith(s, suffix)
  {
    if |suffix| <= |s| {
      assert s[|s| - |suffix|..][|suffix| - back] == s[|s| - back];
    }
  }

  /** The long suffixes all end in B, and have i or a unit letter before it. */
  lemma NoLongSuffix(s: string, back: nat)
    requires 1 <= back <= |s| && back <= 2
    requires if back == 1 then s[|s| - 1] != 'B' else s[|s| - 2] !in "iGMKT"
    ensures StripUnitSuffix(s) ==
            if |s| > 1 && s[|s| - 1] in "GgMmKkTt" then Split(s[..|s| - 1], s[|s| - 1]) else Split(s, 'B')
  {
    DoesNotEnd(s, "GiB", back); DoesNotEnd(s, "MiB", back); DoesNotEnd(s, "KiB", back); DoesNotEnd(s, "TiB", back);
    DoesNotEnd(s, "GB", back); DoesNotEnd(s, "MB", back); DoesNotEnd(s, "KB", back); DoesNotEnd(s, "TB", back);
  }

  lemma SettingSplits(n: int, unit: char)
    requires unit == 'M' || unit == 'G' || unit == 'K'
    ensures Strip(PrintInt(n) + [unit]) == PrintInt(n) + [unit] != ""
    ensures SplitOf(PrintInt(n) + [unit]) == Split(PrintInt(n), unit)
  {
    var s := PrintInt(n) + [unit];
    StripTight(s);
    TightSplit(s);
    assert s[|s| - 1] == unit && s[..|s| - 1] == PrintInt(n);
    NoLongSuffix(s, 1);
  }

  lemma TightSplit(s: string)
    requires Strip(s) == s
    ensures SplitOf(s) == StripUnitSuffix(s)
  {
  }

  /** A memory or disk size that is set on a VM parses back to the same number. */
  lemma SettingsRoundTrip(n: int)
    ensures ParseMemoryToMb(MemorySetting(n)) == n
    ensures ParseDiskToGb(DiskSetting(n)) == n
  {
    SettingSplits(n, 'M');
    SettingSplits(n, 'G');
    SettingReads(n);
  }

  lemma SettingReads(n: int)
    ensures MemoryOf(Split(PrintInt(n), 'M')) == n && DiskOf(Split(PrintInt(n), 'G')) == n
  {
    PrintIntRoundTrip(n, "");
    assert PrintInt(n) + "" == PrintInt(n);
  }

  /** A number of K: the memory parser divides by 1024, the disk parser takes it for bytes. */
  lemma KilobytesReadAsBytes(n: nat)
    ensures ParseMemoryToMb(PrintInt(n) + ['K']) == n / 1024
    ensures ParseDiskToGb(PrintInt(n) + ['K']) == n / GIB
  {
    SettingSplits(n, 'K');
    KilobytesRead(n);
  }

  lemma KilobytesRead(n: nat)
    ensures MemoryOf(Split(PrintInt(n), 'K')) == n / 1024 && DiskOf(Split(PrintInt(n), 'K')) == n / GIB
  {
    PrintIntRoundTrip(n, "");
    assert PrintInt(n) + "" == PrintInt(n);
    FloorOfFloor(n as real);
  }

  // ------------------------------------------------------- printing and parsing

  /** Any rule that rounds a number to a nearest integer. */
  ghost predicate Nearest(round: real -> int) {
    forall x :: -0.5 <= round(x) as real - x <= 0.5
  }

  function InGib(bytes: int): real { bytes as real / 1073741824.0 }
  function InMib(bytes: int): real { bytes as real / 1048576.0 }

  /** A number with one decimal, given the rule that rounds its tenths. */
  function OneDecimal(x: real, round: real -> int): string
    requires Nearest(round) && x >= 0.0
  {
    PrintTenths(Tenths(x, round))
  }

  function Tenths(x: real, round: real -> int): (k: nat)
    requires Nearest(round) && x >= 0.0
    ensures -0.5 <= k as real - x * 10.0 <= 0.5
  {
    assert -0.5 <= round(x * 10.0) as real - x * 10.0;
    round(x * 10.0)
  }

  function FormatBytes(bytes: int, round: real -> int): string
    requires Nearest(round)
  {
    if bytes >= GIB then OneDecimal(InGib(bytes), round) + " GiB"
    else if bytes >= MIB then OneDecimal(InMib(bytes), round) + " MiB"
    else PrintInt(bytes) + " B"
  }

  /** `k` tenths of `unit` bytes are nearest to `bytes`. */
  predicate NearestTenths(k: int, unit: int, bytes: int) {
    -unit <= 2 * (k * unit - 10 * bytes) <= unit
  }

  lemma TenthsAreNearest(bytes: nat, round: real -> int)
    requires Nearest(round)
    ensures NearestTenths(Tenths(InGib(bytes), round), 1073741824, bytes)
    ensures NearestTenths(Tenths(InMib(bytes), round), 1048576, bytes)
  {
  }

  /** What is printed: in GiB from 2^30 on and in MiB from 2^20 on, to the nearest tenth, and else the bytes. */
  lemma FormatShape(bytes: nat, round: real -> int) returns (k: nat)
    requires Nearest(round)
    ensures bytes >= 1073741824 ==>
              FormatBytes(bytes, round) == PrintTenths(k) + " GiB" && NearestTenths(k, 1073741824, bytes)
    ensures 1048576 <= bytes < 1073741824 ==>
              FormatBytes(bytes, round) == PrintTenths(k) + " MiB" && NearestTenths(k, 1048576, bytes)
    ensures bytes < 1048576 ==> FormatBytes(bytes, round) == PrintInt(bytes) + " B"
  {
    TenthsAreNearest(bytes, round);
    k := if bytes >= GIB then Tenths(InGib(bytes), round) else Tenths(InMib(bytes), round);
  }

  lemma TenthsParse(k: nat, unit: char)
    requires unit == 'G' || unit == 'M'
    ensures var s := PrintTenths(k) + (" " + [unit] + "iB");
            Strip(s) == s && StripUnitSuffix(s) == Split(PrintTenths(k) + " ", unit)
  {
    var s := PrintTenths(k) + (" " + [unit] + "iB");
    assert s[0] == PrintNat(k / 10)[0] && s[|s| - 1] == 'B';
    StripTight(s);
    assert s[|s| - 3..] == [unit] + "iB";
    assert s[..|s| - 3] == PrintTenths(k) + " ";
    if unit == 'M' {
      DoesNotEnd(s, "GiB", 3);
    }
  }

  lemma BytesSplit(digits: string)
    requires digits != "" && AllDigits(digits)
    ensures var s := digits + " B"; Strip(s) == s && StripUnitSuffix(s) == Split(s, 'B')
  {
    var s := digits + " B";
    assert s[0] == digits[0] && s[|s| - 1] == 'B' && s[|s| - 2] == ' ';
    StripTight(s);
    NoLongSuffix(s, 2);
  }

  lemma BytesParse(n: nat)
    ensures var s := PrintInt(n) + " B"; Strip(s) == s && StripUnitSuffix(s) == Split(s, 'B')
  {
    var digits := PrintInt(n);
    assert digits == PrintNat(n);
    BytesSplit(digits);
  }

  lemma GibReads(k: nat)
    ensures MemoryOf(Split(PrintTenths(k) + " ", 'G')) == (k as real / 10.0 * 1024.0).Floor
  {
    TenthsRoundTrip(k, " ");
  }

  lemma MibReads(k: nat)
    ensures MemoryOf(Split(PrintTenths(k) + " ", 'M')) == (k as real / 10.0).Floor
  {
    TenthsRoundTrip(k, " ");
  }

  lemma BytesRead(n: nat)
    requires n < MIB
    ensures MemoryOf(Split(PrintInt(n) + " B", 'B')) == 0
  {
    PrintIntRoundTrip(n, " B");
  }

  /** What parsing a printed size comes to, range by range. */
  function Reparsed(bytes: nat, round: real -> int): int
    requires Nearest(round)
  {
    if bytes >= GIB then (Tenths(InGib(bytes), round) as real / 10.0 * 1024.0).Floor
    else if bytes >= MIB then (Tenths(InMib(bytes), round) as real / 10.0).Floor
    else 0
  }

  lemma TenthsReparse(k: nat)
    ensures ParseMemoryToMb(PrintTenths(k) + " GiB") == (k as real / 10.0 * 1024.0).Floor
    ensures ParseMemoryToMb(PrintTenths(k) + " MiB") == (k as real / 10.0).Floor
  {
    TenthsParse(k, 'G');
    TenthsParse(k, 'M');
    assert " " + ['G'] + "iB" == " GiB" && " " + ['M'] + "iB" == " MiB";
    GibReads(k);
    MibReads(k);
  }

  lemma BytesReparse(bytes: nat)
    requires bytes < MIB
    ensures ParseMemoryToMb(PrintInt(bytes) + " B") == 0
  {
    BytesParse(bytes);
    BytesRead(bytes);
  }

  lemma FormatReparses(bytes: nat, round: real -> int)
    requires Nearest(round)
    ensures ParseMemoryToMb(FormatBytes(bytes, round)) == Reparsed(bytes, round)
  {
    if bytes >= GIB {
      TenthsReparse(Tenths(InGib(bytes), round));
    } else if bytes >= MIB {
      TenthsReparse(Tenths(InMib(bytes), round));
    } else {
      BytesReparse(bytes);
    }
  }

  /** Printing a byte count and parsing it as memory stays within half a printed digit and a floor. */
  lemma PrintParseBound(bytes: nat, round: real -> int)
    requires Nearest(round)
    ensures var error := ParseMemoryToMb(FormatBytes(bytes, round)) as real - InMib(bytes);
            && (bytes >= GIB ==> -52.2 < error < 52.2)
            && (MIB <= bytes < GIB ==> -1.05 < error < 1.05)
            && (bytes < MIB ==> -1.0 < error <= 0.0)
  {
    FormatReparses(bytes, round);
    assert InMib(bytes) == InGib(bytes) * 1024.0;
  }

  lemma TenthsAreMonotone(x: real, y: real, round: real -> int)
    requires Nearest(round) && 0.0 <= x <= y
    ensures Tenths(x, round) <= Tenths(y, round)
  {
    if x < y {
      assert Tenths(x, round) as real < Tenths(y, round) as real + 1.0;
    }
  }

  /** The two unit boundaries, from either side. */
  lemma Boundaries(bytes: nat, round: real -> int)
    requires Nearest(round)
    ensures bytes >= GIB ==> Reparsed(bytes, round) >= 1024
    ensures MIB <= bytes < GIB ==> 1 <= Reparsed(bytes, round) <= 1024
  {
    if bytes >= GIB {
      assert InGib(bytes) >= 1.0;
    } else if bytes >= MIB {
      assert 1.0 <= InMib(bytes) < 1024.0;
      assert 10 <= Tenths(InMib(bytes), round) <= 10240;
    }
  }

  /** A larger byte count never parses back to less, also across the two unit boundaries. */
  lemma PrintParseMonotone(a: nat, b: nat, round: real -> int)
    requires Nearest(round) && a <= b
    ensures ParseMemoryToMb(FormatBytes(a, round)) <= ParseMemoryToMb(FormatBytes(b, round))
  {
    FormatReparses(a, round);
    FormatReparses(b, round);
    Boundaries(a, round);
    Boundaries(b, round);
    if a >= GIB {
      TenthsAreMonotone(InGib(a), InGib(b), round);
    } else if a >= MIB && b < GIB {
      TenthsAreMonotone(InMib(a), InMib(b), round);
    }
  }

  // ----------------------------------------------------- every spelling of a unit

  datatype Unit = Kilo | Mega | Giga | Tera

  function Letter(u: Unit): char {
    match u
    case Kilo => 'k'
    case Mega => 'm'
    case Giga => 'g'
    case Tera => 't'
  }

  function Capital(u: Unit): char {
    match u
    case Kilo => 'K'
    case Mega => 'M'
    case Giga => 'G'
    case Tera => 'T'
  }

  /** For instance GiB, GB, G and g. */
  predicate Spells(text: string, u: Unit) {
    text == [Capital(u), 'i', 'B'] || text == [Capital(u), 'B'] || text == [Capital(u)] || text == [Letter(u)]
  }

  lemma LongSplits(num: string, c: char)
    requires c in "GMKT"
    ensures StripUnitSuffix(num + [c, 'i', 'B']) == Split(num, c)
  {
    var s := num + [c, 'i', 'B'];
    assert s[|s| - 3..] == [c, 'i', 'B'] && s[..|s| - 3] == num;
    if c != 'G' { DoesNotEnd(s, "GiB", 3); }
    if c != 'M' { DoesNotEnd(s, "MiB", 3); }
    if c != 'K' { DoesNotEnd(s, "KiB", 3); }
    if c != 'T' { DoesNotEnd(s, "TiB", 3); }
  }

  lemma ShortSplits(num: string, c: char)
    requires c in "GMKT"
    ensures StripUnitSuffix(num + [c, 'B']) == Split(num, c)
  {
    var s := num + [c, 'B'];
    assert s[|s| - 2..] == [c, 'B'] && s[..|s| - 2] == num;
    DoesNotEnd(s, "GiB", 2); DoesNotEnd(s, "MiB", 2); DoesNotEnd(s, "KiB", 2); DoesNotEnd(s, "TiB", 2);
    if c != 'G' { DoesNotEnd(s, "GB", 2); }
    if c != 'M' { DoesNotEnd(s, "MB", 2); }
    if c != 'K' { DoesNotEnd(s, "KB", 2); }
    if c != 'T' { DoesNotEnd(s, "TB", 2); }
  }

  lemma LetterSplits(num: string, c: char)
    requires num != "" && c in "GgMmKkTt"
    ensures StripUnitSuffix(num + [c]) == Split(num, c)
  {
    var s := num + [c];
    assert s[|s| - 1] == c && s[..|s| - 1] == num;
    NoLongSuffix(s, 1);
  }

  lemma CapitalIs(u: Unit)
    ensures Capital(u) in "GMKT" && Lower(Capital(u)) == Letter(u) && Lower(Letter(u)) == Letter(u)
    ensures Capital(u) in "GgMmKkTt" && Letter(u) in "GgMmKkTt"
    ensures !IsSpace(Capital(u)) && !IsSpace(Letter(u)) && !IsSpace('B')
  {
  }

  lemma SpellingEnds(num: string, spelling: string, u: Unit)
    requires num != "" && Spells(spelling, u)
    ensures StripUnitSuffix(num + spelling).number == num && Lower(StripUnitSuffix(num + spelling).unit) == Letter(u)
    ensures !IsSpace(spelling[|spelling| - 1])
  {
    CapitalIs(u);
    var c := Capital(u);
    if spelling == [c, 'i', 'B'] {
      LongSplits(num, c);
    } else if spelling == [c, 'B'] {
      ShortSplits(num, c);
    } else if spelling == [c] {
      LetterSplits(num, c);
    } else {
      LetterSplits(num, Letter(u));
    }
  }

  /** However the unit is spelt, what comes before it is the number, whatever blanks surround it all. */
  lemma SpellingSplits(left: string, num: string, spelling: string, u: Unit, right: string)
    requires num != "" && !IsSpace(num[0]) && Spells(spelling, u) && Blank(left) && Blank(right)
    ensures var p := SplitOf(left + (num + spelling) + right);
            p.number == num && Lower(p.unit) == Letter(u)
    ensures Strip(left + (num + spelling) + right) != ""
  {
    var s := num + spelling;
    SpellingEnds(num, spelling, u);
    assert s[0] == num[0] && s[|s| - 1] == spelling[|spelling| - 1];
    StripPadded(left, s, right);
  }

  /** A number of tenths of a unit, in whole MB and in whole GB. */
  function MbOfTenths(k: nat, u: Unit): nat {
    match u
    case Kilo => k / 10240
    case Mega => k / 10
    case Giga => k * 1024 / 10
    case Tera => k * 1048576 / 10
  }

  /** The disk parser takes a number of K for bytes. */
  function GbOfTenths(k: nat, u: Unit): nat {
    match u
    case Kilo => k / 10 / 1073741824
    case Mega => k / 10240
    case Giga => k / 10
    case Tera => k * 1024 / 10
  }

  lemma FloorOfTenths(k: nat)
    ensures (k as real / 10.0).Floor == k / 10
    ensures (k as real / 10.0 * 1024.0).Floor == k * 1024 / 10
    ensures (k as real / 10.0 * 1024.0 * 1024.0).Floor == k * 1048576 / 10
    ensures (k as real / 10.0 / 1024.0).Floor == k / 10240
  {
    FloorOfRatio(k, 10);
    FloorOfRatio(k * 1024, 10);
    FloorOfRatio(k * 1048576, 10);
    FloorOfRatio(k, 10240);
  }

  lemma FloorOfRatio(a: nat, b: nat)
    requires b > 0
    ensures (a as real / b as real).Floor == a / b
  {
    var q, r := a / b, a % b;
    assert a == q * b + r;
    assert a as real == (q * b + r) as real == q as real * b as real + r as real;
    assert a as real / b as real == q as real + r as real / b as real;
    assert 0.0 <= r as real / b as real < 1.0;
  }

  lemma TenthsValue(p: Split, k: nat, u: Unit)
    requires ToF(p.number) == k as real / 10.0 && Lower(p.unit) == Letter(u)
    ensures MemoryOf(p) == MbOfTenths(k, u) && DiskOf(p) == GbOfTenths(k, u)
  {
    FloorOfTenths(k);
    ToIIsTruncatedToF(p.number);
  }

  /** Every number with one decimal, in every spelling of every unit, with or without a blank between. */
  lemma TenthsRead(left: string, k: nat, gap: string, spelling: string, u: Unit, right: string)
    requires (gap == "" || gap == " ") && Spells(spelling, u) && Blank(left) && Blank(right)
    ensures var text := left + (PrintTenths(k) + gap + spelling) + right;
            ParseMemoryToMb(text) == MbOfTenths(k, u) && ParseDiskToGb(text) == GbOfTenths(k, u)
  {
    var num := PrintTenths(k) + gap;
    assert num[0] == PrintNat(k / 10)[0];
    SpellingSplits(left, num, spelling, u, right);
    TenthsRoundTrip(k, gap);
    TenthsValue(SplitOf(left + (num + spelling) + right), k, u);
  }

  function MbOf(n: nat, u: Unit): nat {
    match u
    case Kilo => n / 1024
    case Mega => n
    case Giga => n * 1024
    case Tera => n * 1048576
  }

  function GbOf(n: nat, u: Unit): nat {
    match u
    case Kilo => n / 1073741824
    case Mega => n / 1024
    case Giga => n
    case Tera => n * 1024
  }

  lemma TenTenths(n: nat, u: Unit)
    ensures MbOfTenths(n * 10, u) == MbOf(n, u) && GbOfTenths(n * 10, u) == GbOf(n, u)
  {
  }

  lemma AsTenths(n: nat)
    ensures (n * 10) as real / 10.0 == n as real
  {
  }

  lemma WholeValue(p: Split, n: nat, u: Unit)
    requires ToF(p.number) == n as real && Lower(p.unit) == Letter(u)
    ensures MemoryOf(p) == MbOf(n, u) && DiskOf(p) == GbOf(n, u)
  {
    TenTenths(n, u);
    AsTenths(n);
    TenthsValue(p, n * 10, u);
  }

  /** And every whole number. */
  lemma WholesRead(left: string, n: nat, gap: string, spelling: string, u: Unit, right: string)
    requires (gap == "" || gap == " ") && Spells(spelling, u) && Blank(left) && Blank(right)
    ensures var text := left + (PrintInt(n) + gap + spelling) + right;
            ParseMemoryToMb(text) == MbOf(n, u) && ParseDiskToGb(text) == GbOf(n, u)
  {
    var num := PrintInt(n) + gap;
    assert num[0] == PrintNat(n)[0];
    SpellingSplits(left, num, spelling, u, right);
    PrintIntRoundTrip(n, gap);
    WholeValue(SplitOf(left + (num + spelling) + right), n, u);
  }

  lemma BytesValue(p: Split, n: int)
    requires ToI(p.number) == n && p.unit == 'B'
    ensures MemoryOf(p) == n / 1048576 && DiskOf(p) == n / 1073741824
  {
  }

  /** A plain number is one of bytes, in whole MB and in whole GB. */
  lemma PlainNumbersRead(n: int)
    ensures ParseMemoryToMb(PrintInt(n)) == n / 1048576 && ParseDiskToGb(PrintInt(n)) == n / 1073741824
    ensures ParseMemoryToMb(PrintInt(n) + " B") == n / 1048576 && ParseDiskToGb(PrintInt(n) + " B") == n / 1073741824
  {
    PlainSplits(n);
    PlainReads(n);
  }

  lemma PlainReads(n: int)
    ensures ToI(PrintInt(n)) == n && ToI(PrintInt(n) + " B") == n
    ensures MemoryOf(Split(PrintInt(n), 'B')) == n / 1048576 && DiskOf(Split(PrintInt(n), 'B')) == n / 1073741824
    ensures MemoryOf(Split(PrintInt(n) + " B", 'B')) == n / 1048576
    ensures DiskOf(Split(PrintInt(n) + " B", 'B')) == n / 1073741824
  {
    PrintIntRoundTrip(n, "");
    PrintIntRoundTrip(n, " B");
    assert PrintInt(n) + "" == PrintInt(n);
    BytesValue(Split(PrintInt(n), 'B'), n);
    BytesValue(Split(PrintInt(n) + " B", 'B'), n);
  }

  lemma PlainSplits(n: int)
    ensures SplitOf(PrintInt(n)) == Split(PrintInt(n), 'B') && Strip(PrintInt(n)) != ""
    ensures SplitOf(PrintInt(n) + " B") == Split(PrintInt(n) + " B", 'B') && Strip(PrintInt(n) + " B") != ""
  {
    var s, digits := PrintInt(n), if n < 0 then PrintNat(-n) else PrintNat(n);
    assert s[|s| - 1] == digits[|digits| - 1];
    StripTight(s);
    NoLongSuffix(s, 1);
    var b := s + " B";
    assert b[0] == s[0] && b[|b| - 1] == 'B' && b[|b| - 2] == ' ';
    StripTight(b);
    NoLongSuffix(b, 2);
  }

  /** The text ends in a unit: a capital before iB or B, or a letter of either case after something else. */
  predicate EndsInUnit(s: string) {
    var n := |s|;
    || (n >= 3 && s[n - 3] in "GMKT" && s[n - 2] == 'i' && s[n - 1] == 'B')
    || (n >= 2 && s[n - 2] in "GMKT" && s[n - 1] == 'B')
    || (n >= 2 && s[n - 1] in "GgMmKkTt")
  }

  lemma EndsWithPair(s: string, c: char)
    ensures EndsWith(s, [c, 'B']) <==> |s| >= 2 && s[|s| - 2] == c && s[|s| - 1] == 'B'
  {
    if |s| >= 2 {
      assert s[|s| - 2..] == [s[|s| - 2], s[|s| - 1]];
    }
  }

  lemma EndsWithTriple(s: string, c: char)
    ensures EndsWith(s, [c, 'i', 'B']) <==> |s| >= 3 && s[|s| - 3] == c && s[|s| - 2] == 'i' && s[|s| - 1] == 'B'
  {
    if |s| >= 3 {
      assert s[|s| - 3..] == [s[|s| - 3], s[|s| - 2], s[|s| - 1]];
    }
  }

  /** Whatever does not end in a unit is taken for bytes as it stands. */
  lemma NoUnitIff(s: string)
    ensures StripUnitSuffix(s).unit == 'B' <==> !EndsInUnit(s)
    ensures !EndsInUnit(s) ==> StripUnitSuffix(s).number == s
  {
    EndsWithTriple(s, 'G'); EndsWithTriple(s, 'M'); EndsWithTriple(s, 'K'); EndsWithTriple(s, 'T');
    EndsWithPair(s, 'G'); EndsWithPair(s, 'M'); EndsWithPair(s, 'K'); EndsWithPair(s, 'T');
  }

  /** No text, no size. */
  lemma BlankReadsAsNothing(text: string)
    requires Blank(text)
    ensures ParseMemoryToMb(text) == 0 && ParseDiskToGb(text) == 0
  {
    StripBlank(text);
  }
}
