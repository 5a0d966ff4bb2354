/** Canonical IPv4 addresses: the textual forms of POSIX `inet_addr`, and their address ranges. */
module Ipv4 {
  import opened Options
  import opened Strings

  // ---- Numbers -------------------------------------------------------------------------

  predicate Octal(c: char)
  {
    '0' <= c <= '7'
  }

  predicate DecimalDigit(c: char)
  {
    '0' <= c <= '9'
  }

  predicate Hex(c: char)
  {
    DecimalDigit(c) || 'a' <= c <= 'f'
  }

  function DigitValue(c: char): (d: nat)
  {
    if DecimalDigit(c) then (c - '0') as nat else if 'a' <= c <= 'f' then (c - 'a') as nat + 10 else 0
  }

  /** `parseInt` of a text of digits. */
  function Positional(digits: string, base: nat): nat
  {
    if digits == "" then 0 else Positional(digits[..|digits| - 1], base) * base + DigitValue(digits[|digits| - 1])
  }

  predicate All(s: string, p: char -> bool)
  {
    forall i :: 0 <= i < |s| ==> p(s[i])
  }

  /** A part in base 16, 8 or 10, by its prefix. */
  function Number(p: string): Option<nat>
  {
    if |p| > 2 && p[..2] == "0x" && All(p[2..], Hex) then Some(Positional(p[2..], 16))
    else if |p| > 1 && p[0] == '0' && All(p[1..], Octal) then Some(Positional(p, 8))
    else if p == "0" || (|p| > 0 && '1' <= p[0] <= '9' && All(p, DecimalDigit)) then Some(Positional(p, 10))
    else None
  }

  // ---- The address of POSIX inet_addr ------------------------------------------------------

  const K24: nat := 0x100_0000
  const K16: nat := 0x1_0000
  const K32: nat := 0x1_0000_0000

  /** One to four parts: all but the last are bytes, the last fills the bytes that are left. */
  predicate Legal(n: seq<nat>)
  {
    match |n|
    case 1 => n[0] < K32
    case 2 => n[0] < 256 && n[1] < K24
    case 3 => n[0] < 256 && n[1] < 256 && n[2] < K16
    case 4 => n[0] < 256 && n[1] < 256 && n[2] < 256 && n[3] < 256
    case _ => false
  }

  function Address(n: seq<nat>): (v: nat)
    requires Legal(n)
    ensures v < K32
  {
    match |n|
    case 1 => n[0]
    case 2 => n[0] * K24 + n[1]
    case 3 => n[0] * K24 + n[1] * K16 + n[2]
    case _ => n[0] * K24 + n[1] * K16 + n[2] * 256 + n[3]
  }

  /** The four bytes of a 32-bit value, highest first. */
  function Octets(v: nat): (o: seq<nat>)
    requires v < K32
    ensures |o| == 4
  {
    [v / K24 % 256, v / K16 % 256, v / 256 % 256, v % 256]
  }

  /** The octets of a value are bytes, and their address is the value. */
  lemma OctetsRecompose(v: nat)
    requires v < K32
    ensures Legal(Octets(v)) && Address(Octets(v)) == v
  {
    var a, b, c := v / 256, v / K16, v / K24;
    assert v == a * 256 + v % 256;
    assert b == a / 256 && a == b * 256 + a % 256;
    assert c == b / 256 && b == c * 256 + b % 256;
    assert c < 256 && c % 256 == c;
  }

  /** Bytes are the octets of their address. */
  lemma AddressHasOctets(n: seq<nat>)
    requires |n| == 4 && Legal(n)
    ensures Octets(Address(n)) == n
  {
    OctetsRecompose(Address(n));
    OneAddress(n, Octets(Address(n)));
  }

  lemma OneAddress(m: seq<nat>, n: seq<nat>)
    requires |m| == |n| == 4 && Legal(m) && Legal(n) && Address(m) == Address(n)
    ensures m == n
  {
    var h, k := m[0] * K16 + m[1] * 256 + m[2], n[0] * K16 + n[1] * 256 + n[2];
    LastByte(h, m[3], k, n[3]);
    LastByte(m[0] * 256 + m[1], m[2], n[0] * 256 + n[1], n[2]);
    LastByte(m[0], m[1], n[0], n[1]);
  }

  lemma LastByte(a: nat, x: nat, b: nat, y: nat)
    requires a * 256 + x == b * 256 + y && x < 256 && y < 256
    ensures a == b && x == y
  {
  }

  function Texts(o: seq<nat>): (r: seq<string>)
    ensures |r| == |o| && forall i :: 0 <= i < |o| ==> r[i] == Decimal(o[i])
  {
    seq(|o|, i requires 0 <= i < |o| => Decimal(o[i]))
  }

  function Dotted(v: nat): string
    requires v < K32
  {
    Join(Texts(Octets(v)), ".")
  }

  // ---- Parsing -------------------------------------------------------------------------------

  /** The numbers of the parts, if every part is one. */
  function Numbers(parts: seq<string>): Option<seq<nat>>
  {
    if parts == [] then Some([])
    else
      var before, n := Numbers(parts[..|parts| - 1]), Number(parts[|parts| - 1]);
      if before.Some? && n.Some? then Some(before.value + [n.value]) else None
  }

  lemma {:induction false} NumbersCount(parts: seq<string>)
    ensures Numbers(parts).Some? ==> |Numbers(parts).value| == |parts|
    ensures Numbers(parts).Some? <==> forall i :: 0 <= i < |parts| ==> Number(parts[i]).Some?
    ensures Numbers(parts).Some? ==> forall i :: 0 <= i < |parts| ==> Number(parts[i]) == Some(Numbers(parts).value[i])
  {
    hide Number;
    if parts != [] { NumbersCount(parts[..|parts| - 1]); }
  }

  /** The address a text stands for. */
  function Parsed(s: string): Option<nat>
  {
    var parts := Split(s, ".");
    var n := Numbers(parts);
    if 1 <= |parts| <= 4 && n.Some? && Legal(n.value) then Some(Address(n.value)) else None
  }

  function Pow2(n: nat): nat
  {
    if n == 0 then 1 else 2 * Pow2(n - 1)
  }

  lemma Powers()
    ensures Pow2(8) == 256 && Pow2(16) == K16 && Pow2(24) == K24
  {
    assert Pow2(4) == 16;
    assert Pow2(8) == 256;
    assert Pow2(12) == 0x1000;
    assert Pow2(16) == 0x1_0000;
    assert Pow2(20) == 0x10_0000;
  }

  method ParseParts(parts: seq<string>) returns (nums: Option<seq<nat>>)
    ensures nums == Numbers(parts)
  {
    hide Number;
    var out := [];
    for i := 0 to |parts|
      invariant Numbers(parts[..i]) == Some(out)
    {
      assert parts[..i + 1][..i] == parts[..i];
      var n := Number(parts[i]);
      if n.None? {
        NumbersCount(parts);
        return None;
      }
      out := out + [n.value];
    }
    assert parts[..|parts|] == parts;
    return Some(out);
  }

  /** The leading bytes as one number. */
  function High(n: seq<nat>, i: nat): nat
    requires i <= |n|
  {
    if i == 0 then 0 else High(n, i - 1) * 256 + n[i - 1]
  }

  lemma HighIs(n: seq<nat>)
    requires 2 <= |n| <= 4
    ensures |n| == 2 ==> High(n, 1) == n[0]
    ensures |n| == 3 ==> High(n, 2) == n[0] * 256 + n[1]
    ensures |n| == 4 ==> High(n, 3) == (n[0] * 256 + n[1]) * 256 + n[2]
  {
    assert High(n, 1) == n[0];
    assert High(n, 2) == High(n, 1) * 256 + n[1];
    if |n| == 4 { assert High(n, 3) == High(n, 2) * 256 + n[2]; }
  }

  /** The value of the parts; the last bound never refuses two or more parts. */
  method Combine(nums: seq<nat>) returns (value: Option<nat>, ghost lastCheck: bool)
    requires 1 <= |nums| <= 4
    ensures value == if Legal(nums) then Some(Address(nums)) else None
    ensures lastCheck ==> |nums| == 1
  {
    var k := |nums|;
    lastCheck := false;
    Powers();
    var v;
    if k == 1 {
      v := nums[0];
    } else {
      var hi := 0;
      HighIs(nums);
      for i := 0 to k - 1
        invariant hi == High(nums, i) && forall j :: 0 <= j < i ==> nums[j] <= 255
      {
        if nums[i] > 255 { return None, false; }
        hi := hi * 256 + nums[i];
      }
      var maxLast := Pow2(8 * (4 - (k - 1)));
      assert maxLast == if k == 2 then K24 else if k == 3 then K16 else 256;
      if nums[k - 1] >= maxLast { return None, false; }
      v := hi * maxLast + nums[k - 1];
      Combined(nums, hi, maxLast);
    }
    if v > 0xffff_ffff {
      lastCheck := true;
      return None, true;
    }
    return Some(v), false;
  }

  lemma Combined(nums: seq<nat>, hi: nat, maxLast: nat)
    requires 2 <= |nums| <= 4 && hi == High(nums, |nums| - 1)
    requires maxLast == if |nums| == 2 then K24 else if |nums| == 3 then K16 else 256
    requires (forall j :: 0 <= j < |nums| - 1 ==> nums[j] <= 255) && nums[|nums| - 1] < maxLast
    ensures Legal(nums) && hi * maxLast + nums[|nums| - 1] == Address(nums)
  {
    HighIs(nums);
  }

  /** The dotted form of the address that the text stands for in the forms of `inet_addr`. */
  method ParseIpv4ish(s: string) returns (dotted: Option<string>)
    ensures dotted == if Parsed(s).Some? then Some(Dotted(Parsed(s).value)) else None
  {
    hide Dotted, Address, Legal, Numbers;
    var parts := Split(s, ".");
    if |parts| < 1 || |parts| > 4 { return None; }
    var nums := ParseParts(parts);
    if nums.None? { return None; }
    NumbersCount(parts);
    var value;
    ghost var lastCheck;
    value, lastCheck := Combine(nums.value);
    if value.None? { return None; }
    return Some(Dotted(value.value));
  }

  // ---- Reading the dotted form back ------------------------------------------------------------

  lemma {:induction false} DecimalReads(n: nat)
    ensures Positional(Decimal(n), 10) == n && Decimal(n) != "" && All(Decimal(n), DecimalDigit)
    ensures n > 0 ==> '1' <= Decimal(n)[0] <= '9'
    ensures n == 0 ==> Decimal(n) == "0"
  {
    if n >= 10 {
      DecimalReads(n / 10);
      assert Decimal(n)[..|Decimal(n)| - 1] == Decimal(n / 10);
    } else {
      assert Decimal(n)[..0] == "";
    }
  }

  /** A decimal text is read as its number, whatever the number. */
  lemma NumberOfDecimal(n: nat)
    ensures Number(Decimal(n)) == Some(n)
  {
    DecimalReads(n);
    var p := Decimal(n);
    assert |p| > 1 ==> DecimalDigit(p[1]);
    assert |p| > 2 ==> p[..2][1] == p[1];
  }

  lemma {:induction false} NumbersOfDecimals(o: seq<nat>)
    ensures Numbers(Texts(o)) == Some(o)
  {
    hide Number;
    if o == [] {
    } else {
      var n := |o| - 1;
      NumbersOfDecimals(o[..n]);
      assert Texts(o)[..n] == Texts(o[..n]);
      NumberOfDecimal(o[n]);
      assert o == o[..n] + [o[n]];
    }
  }

  lemma SplitDotted(v: nat)
    requires v < K32
    ensures Split(Dotted(v), ".") == Texts(Octets(v))
  {
    var t := Texts(Octets(v));
    forall p | p in t ensures "."[0] !in p {
      var i :| 0 <= i < |t| && t[i] == p;
      DecimalReads(Octets(v)[i]);
    }
    SplitJoin(t, ".");
  }

  /** Parsing a dotted form gives its address again. */
  lemma ParsedDotted(v: nat)
    requires v < K32
    ensures Parsed(Dotted(v)) == Some(v)
  {
    hide Address, Legal, Octets, Dotted, Numbers;
    SplitDotted(v);
    NumbersOfDecimals(Octets(v));
    OctetsRecompose(v);
  }

  /** Four decimal bytes are read as their address, whose dotted form is the text itself. */
  lemma FourBytesAreCanonical(n: seq<nat>)
    requires |n| == 4 && Legal(n)
    ensures Dotted(Address(n)) == Join(Texts(n), ".") && Parsed(Join(Texts(n), ".")) == Some(Address(n))
  {
    AddressHasOctets(n);
    ParsedDotted(Address(n));
    hide Octets, Address, Legal, Parsed, Join;
  }

  /** Canonical forms are fixed: what the parser puts out, it reads as itself; and two texts
      have one canonical form if and only if they stand for one address. */
  lemma CanonicalForm(s: string, t: string)
    requires Parsed(s).Some? && Parsed(t).Some?
    ensures Parsed(Dotted(Parsed(s).value)) == Parsed(s)
    ensures Dotted(Parsed(s).value) == Dotted(Parsed(t).value) <==> Parsed(s) == Parsed(t)
  {
    hide Dotted;
    ParsedDotted(Parsed(s).value);
    ParsedDotted(Parsed(t).value);
  }

  // ---- Every spelling -------------------------------------------------------------------------

  function HexDigit(d: nat): char
    requires d < 16
  {
    if d < 10 then '0' + d as char else 'a' + (d - 10) as char
  }

  /** A number written out by its digits in a base. */
  function Written(n: nat, base: nat): string
    requires 2 <= base <= 16
  {
    if n < base then [HexDigit(n)] else Written(n / base, base) + [HexDigit(n % base)]
  }

  function Zeros(z: nat): (s: string)
    ensures |s| == z && forall i :: 0 <= i < z ==> s[i] == '0'
  {
    seq(z, i => '0')
  }

  /** `p` writes `n`: in hexadecimal after `0x` or in octal after `0`, with any zeros in front,
      or in decimal with none. */
  ghost predicate Spells(p: string, n: nat)
  {
    exists z: nat :: p == "0x" + Zeros(z) + Written(n, 16) || p == "0" + Zeros(z) + Written(n, 8) || p == Written(n, 10)
  }

  predicate Below(s: string, base: nat)
  {
    forall i :: 0 <= i < |s| ==> Hex(s[i]) && DigitValue(s[i]) < base
  }

  lemma {:induction false} WrittenReads(n: nat, base: nat)
    requires 2 <= base <= 16
    ensures var w := Written(n, base);
      Positional(w, base) == n && w != "" && Below(w, base) && (n > 0 ==> w[0] != '0') && (n == 0 ==> w == "0")
  {
    hide Positional, HexDigit, DigitValue, Hex;
    Quotient(n, base);
    if n < base {
      DigitOf(n);
      ReadLast("", HexDigit(n), base);
      assert "" + [HexDigit(n)] == [HexDigit(n)];
    } else {
      WrittenReads(n / base, base);
      DigitOf(n % base);
      ReadLast(Written(n / base, base), HexDigit(n % base), base);
    }
  }

  lemma ReadLast(front: string, c: char, base: nat)
    ensures Positional(front + [c], base) == Positional(front, base) * base + DigitValue(c)
    ensures Positional("", base) == 0
    ensures Below(front, base) && Hex(c) && DigitValue(c) < base ==> Below(front + [c], base)
  {
    assert (front + [c])[..|front|] == front;
  }

  lemma DigitOf(d: nat)
    requires d < 16
    ensures Hex(HexDigit(d)) && DigitValue(HexDigit(d)) == d && (HexDigit(d) == '0' <==> d == 0)
  {
  }

  lemma Quotient(n: nat, base: nat)
    requires base > 0
    ensures n == (n / base) * base + n % base && (n >= base ==> n / base > 0)
  {
    Multiple(n / base, base);
  }

  lemma Multiple(k: int, base: int)
    requires base >= 0
    ensures k >= 1 ==> k * base >= base
    ensures k <= -1 ==> k * base <= -base
    ensures k == 0 ==> k * base == 0
  {
    if k >= 1 { assert k * base == (k - 1) * base + base && (k - 1) * base >= 0; }
    if k <= -1 { assert k * base == (k + 1) * base - base && (k + 1) * base <= 0; }
  }

  lemma {:induction false} ZerosRead(z: nat, s: string, base: nat)
    ensures Positional(Zeros(z) + s, base) == Positional(s, base)
  {
    if s != "" {
      ZerosRead(z, s[..|s| - 1], base);
      assert (Zeros(z) + s)[..z + |s| - 1] == Zeros(z) + s[..|s| - 1];
    } else if z > 0 {
      ZerosRead(z - 1, s, base);
      assert (Zeros(z) + s)[..z - 1] == Zeros(z - 1) + s;
    } else {
      assert Zeros(z) + s == s;
    }
  }

  /** Digits write their value, but for zeros in front. */
  lemma {:induction false} DigitsWrite(s: string, base: nat) returns (z: nat)
    requires 2 <= base <= 16 && s != "" && Below(s, base)
    ensures s == Zeros(z) + Written(Positional(s, base), base)
  {
    hide Positional, Below, DigitValue, Written, HexDigit, Hex;
    var front, c := s[..|s| - 1], s[|s| - 1];
    LastDigit(s, base);
    if front == "" {
      z := 0;
      OneDigit(c, base);
    } else {
      var before := DigitsWrite(front, base);
      z := AppendDigit(before, Positional(front, base), DigitValue(c), base);
    }
  }

  lemma LastDigit(s: string, base: nat)
    requires s != "" && Below(s, base)
    ensures var front, c := s[..|s| - 1], s[|s| - 1];
      && s == front + [c] && Below(front, base) && Hex(c) && DigitValue(c) < base && HexDigit(DigitValue(c)) == c
      && Positional(s, base) == Positional(front, base) * base + DigitValue(c)
  {
    DigitIs(s[|s| - 1]);
  }

  lemma OneDigit(c: char, base: nat)
    requires 2 <= base <= 16 && Hex(c) && DigitValue(c) < base
    ensures [c] == Zeros(0) + Written(Positional([c], base), base)
  {
    DigitIs(c);
    assert [c][..0] == "";
  }

  lemma AppendDigit(z: nat, v: nat, d: nat, base: nat) returns (z': nat)
    requires 2 <= base <= 16 && d < base
    ensures Zeros(z) + Written(v, base) + [HexDigit(d)] == Zeros(z') + Written(v * base + d, base)
  {
    if v == 0 {
      z' := z + 1;
      assert Written(0, base) == "0" && Zeros(z) + "0" == Zeros(z + 1);
    } else {
      z' := z;
      NextDigit(v, d, base);
      assert Zeros(z) + Written(v, base) + [HexDigit(d)] == Zeros(z) + (Written(v, base) + [HexDigit(d)]);
    }
  }

  lemma DigitIs(c: char)
    requires Hex(c)
    ensures DigitValue(c) < 16 && HexDigit(DigitValue(c)) == c
  {
  }

  lemma NextDigit(v: nat, d: nat, base: nat)
    requires 2 <= base <= 16 && d < base && v > 0
    ensures Written(v * base + d, base) == Written(v, base) + [HexDigit(d)]
  {
    DivOfNext(v, d, base);
  }

  lemma DivOfNext(v: nat, d: nat, base: nat)
    requires 2 <= base && d < base && v > 0
    ensures v * base + d >= base && (v * base + d) / base == v && (v * base + d) % base == d
  {
    var x := v * base + d;
    Quotient(x, base);
    Multiple(v, base);
    Multiple(x / base - v, base);
    assert (x / base - v) * base == (x / base) * base - v * base;
  }

  /** A part is read as a number exactly when it writes it in one of the three bases. */
  lemma NumberExactly(p: string, n: nat)
    ensures Number(p) == Some(n) <==> Spells(p, n)
  {
    if Number(p) == Some(n) { NumberSpells(p, n); }
    if Spells(p, n) { SpellsNumber(p, n); }
  }

  lemma NumberSpells(p: string, n: nat)
    requires Number(p) == Some(n)
    ensures Spells(p, n)
  {
    hide Positional, Written;
    if |p| > 2 && p[..2] == "0x" && All(p[2..], Hex) {
      var z := DigitsWrite(p[2..], 16);
      assert p == p[..2] + p[2..];
      assert p == "0x" + Zeros(z) + Written(n, 16);
    } else if |p| > 1 && p[0] == '0' && All(p[1..], Octal) {
      forall i | 0 <= i < |p[1..]| ensures Hex(p[1..][i]) && DigitValue(p[1..][i]) < 8 { assert Octal(p[1..][i]); }
      var z := DigitsWrite(p[1..], 8);
      assert p == "0" + p[1..] && Zeros(1) == "0";
      ZerosRead(1, p[1..], 8);
      assert p == "0" + Zeros(z) + Written(n, 8);
    } else {
      forall i | 0 <= i < |p| ensures Hex(p[i]) && DigitValue(p[i]) < 10 {
        if p == "0" { assert p[i] == '0'; } else { assert DecimalDigit(p[i]); }
      }
      DecimalSpelling(p);
      assert p == "0" + Zeros(0) + Written(n, 8) || p == Written(n, 10);
    }
  }

  lemma ZerosFirst(z: nat, s: string)
    ensures z > 0 ==> (Zeros(z) + s)[0] == '0'
  {
  }

  lemma DecimalSpelling(p: string)
    requires p != "" && Below(p, 10) && (p == "0" || p[0] != '0')
    ensures p == Written(Positional(p, 10), 10)
  {
    var z := DigitsWrite(p, 10);
    WrittenReads(Positional(p, 10), 10);
    ZerosFirst(z, Written(Positional(p, 10), 10));
    assert Zeros(0) + Written(Positional(p, 10), 10) == Written(Positional(p, 10), 10);
  }

  lemma ZerosBelow(z: nat, s: string, base: nat)
    requires Below(s, base) && base > 0
    ensures Below(Zeros(z) + s, base)
  {
    var t := Zeros(z) + s;
    forall i | 0 <= i < |t| ensures Hex(t[i]) && DigitValue(t[i]) < base {
      if i >= z { assert t[i] == s[i - z]; }
    }
  }

  lemma HexReads(p: string, z: nat, n: nat)
    requires p == "0x" + Zeros(z) + Written(n, 16)
    ensures Number(p) == Some(n)
  {
    hide Positional, Written, DigitValue;
    WrittenReads(n, 16);
    ZerosRead(z, Written(n, 16), 16);
    ZerosBelow(z, Written(n, 16), 16);
    assert p[2..] == Zeros(z) + Written(n, 16) && p[..2] == "0x";
  }

  lemma OctalReads(p: string, z: nat, n: nat)
    requires p == "0" + Zeros(z) + Written(n, 8)
    ensures Number(p) == Some(n)
  {
    hide Positional, Written;
    var tail := Zeros(z) + Written(n, 8);
    WrittenReads(n, 8);
    ZerosRead(z, Written(n, 8), 8);
    ZerosRead(1, tail, 8);
    ZerosBelow(z, Written(n, 8), 8);
    assert p == Zeros(1) + tail && p[1..] == tail;
    forall i | 0 <= i < |tail| ensures Octal(tail[i]) { assert Hex(tail[i]) && DigitValue(tail[i]) < 8; }
    assert p[..2][1] == p[1] == tail[0];
  }

  lemma SpellsNumber(p: string, n: nat)
    requires Spells(p, n)
    ensures Number(p) == Some(n)
  {
    hide Positional, Written;
    var z: nat :| p == "0x" + Zeros(z) + Written(n, 16) || p == "0" + Zeros(z) + Written(n, 8) || p == Written(n, 10);
    if p == "0x" + Zeros(z) + Written(n, 16) {
      HexReads(p, z, n);
    } else if p == "0" + Zeros(z) + Written(n, 8) {
      OctalReads(p, z, n);
    } else {
      WrittenReads(n, 10);
      assert |p| > 1 ==> Hex(p[1]);
      assert |p| > 2 ==> p[..2][1] == p[1];
    }
  }

  /** The text writes these numbers, separated by dots. */
  ghost predicate TextOf(s: string, n: seq<nat>)
  {
    exists parts: seq<string> :: s == Join(parts, ".") && SpellsAll(parts, n)
  }

  ghost predicate SpellsAll(parts: seq<string>, n: seq<nat>)
  {
    |parts| == |n| && forall i :: 0 <= i < |n| ==> Spells(parts[i], n[i])
  }

  function Quad(a: nat, b: nat, c: nat, d: nat): string
  {
    Decimal(a) + "." + Decimal(b) + "." + Decimal(c) + "." + Decimal(d)
  }

  /** What `inet_addr` makes of one to four numbers: each but the last is one byte, and the
      last is spread over the bytes that are left. */
  function Canonical(n: seq<nat>): Option<string>
  {
    if |n| == 4 && n[0] < 256 && n[1] < 256 && n[2] < 256 && n[3] < 256 then Some(Quad(n[0], n[1], n[2], n[3]))
    else if |n| == 3 && n[0] < 256 && n[1] < 256 && n[2] < 65536 then Some(Quad(n[0], n[1], n[2] / 256, n[2] % 256))
    else if |n| == 2 && n[0] < 256 && n[1] < 16777216 then
      Some(Quad(n[0], n[1] / 65536, n[1] / 256 % 256, n[1] % 256))
    else if |n| == 1 && n[0] < 4294967296 then
      Some(Quad(n[0] / 16777216, n[0] / 65536 % 256, n[0] / 256 % 256, n[0] % 256))
    else None
  }

  /** The answer of the parser. */
  function Answer(s: string): Option<string>
  {
    if Parsed(s).Some? then Some(Dotted(Parsed(s).value)) else None
  }

  lemma JoinFour(t: seq<string>)
    requires |t| == 4
    ensures Join(t, ".") == t[0] + "." + t[1] + "." + t[2] + "." + t[3]
  {
    assert t[1..][1..] == t[2..] && t[2..][1..] == t[3..] && t[3..] == [t[3]];
    assert Join(t[2..], ".") == t[2] + "." + t[3];
    assert Join(t[1..], ".") == t[1] + "." + Join(t[2..], ".");
  }

  lemma DottedIsQuad(o: seq<nat>)
    requires |o| == 4 && Legal(o)
    ensures Dotted(Address(o)) == Quad(o[0], o[1], o[2], o[3])
  {
    AddressHasOctets(o);
    JoinFour(Texts(o));
  }

  /** The bytes that the numbers of a legal text stand for. */
  lemma Spread(n: seq<nat>) returns (o: seq<nat>)
    requires Legal(n)
    ensures |o| == 4 && Legal(o) && Address(o) == Address(n) && Canonical(n) == Some(Quad(o[0], o[1], o[2], o[3]))
  {
    hide Quad;
    if |n| == 1 {
      o := [n[0] / 16777216, n[0] / 65536 % 256, n[0] / 256 % 256, n[0] % 256];
      OctetsRecompose(n[0]);
    } else if |n| == 2 {
      o := [n[0], n[1] / 65536, n[1] / 256 % 256, n[1] % 256];
      ThreeBytes(n[1]);
    } else if |n| == 3 {
      o := [n[0], n[1], n[2] / 256, n[2] % 256];
    } else {
      o := n;
    }
  }

  lemma ThreeBytes(v: nat)
    requires v < K24
    ensures v / 65536 < 256 && v == v / 65536 * 65536 + v / 256 % 256 * 256 + v % 256
  {
    OctetsRecompose(v);
  }

  lemma {:induction false} NumbersExactly(parts: seq<string>, n: seq<nat>)
    ensures Numbers(parts) == Some(n) <==> SpellsAll(parts, n)
  {
    hide Number, Spells;
    NumbersCount(parts);
    if |parts| == |n| {
      forall i | 0 <= i < |n| ensures Number(parts[i]) == Some(n[i]) <==> Spells(parts[i], n[i]) {
        NumberExactly(parts[i], n[i]);
      }
      if SpellsAll(parts, n) { assert Numbers(parts).value == n; }
    }
  }

  lemma SpellingHasNoDot(p: string, n: nat)
    requires Spells(p, n)
    ensures '.' !in p
  {
    NumberExactly(p, n);
    hide Positional, Spells;
    forall c | c in p ensures c != '.' {
      var i :| 0 <= i < |p| && p[i] == c;
      if |p| > 2 && p[..2] == "0x" && All(p[2..], Hex) {
        if i < 2 { assert p[..2][i] == c; } else { assert Hex(p[2..][i - 2]); }
      } else if |p| > 1 && p[0] == '0' && All(p[1..], Octal) {
        if i > 0 { assert Octal(p[1..][i - 1]); }
      }
    }
  }

  /** The answer on every text that writes numbers, in any of the bases and with any zeros. */
  lemma InetText(s: string, n: seq<nat>)
    requires TextOf(s, n) && n != []
    ensures Answer(s) == Canonical(n)
  {
    hide Spells, Quad, Dotted, Address, Numbers, Join, Split;
    var parts: seq<string> :| s == Join(parts, ".") && SpellsAll(parts, n);
    forall p | p in parts ensures "."[0] !in p {
      var i :| 0 <= i < |parts| && parts[i] == p;
      SpellingHasNoDot(p, n[i]);
    }
    SplitJoin(parts, ".");
    NumbersExactly(parts, n);
    if Legal(n) {
      var o := Spread(n);
      DottedIsQuad(o);
    }
  }

  /** And every text that is answered writes numbers. */
  lemma InetTextOnly(s: string) returns (n: seq<nat>)
    requires Answer(s).Some?
    ensures TextOf(s, n) && n != []
  {
    hide Numbers, Dotted, Join, Split, Spells;
    var parts := Split(s, ".");
    n := Numbers(parts).value;
    NumbersExactly(parts, n);
    JoinSplit(s, ".");
  }

  // ---- Classification ------------------------------------------------------------------------------

  datatype HostClass = Loopback | Private | Metadata | Public

  /** `classifyV4`, on the octets as it reads them from the dotted form. */
  function ClassifyV4(v4: string): HostClass
  {
    var o := Split(v4, ".");
    var a := if |o| > 0 then Number(o[0]) else None;
    var b := if |o| > 1 then Number(o[1]) else None;
    if v4 == "169.254.169.254" then Metadata
    else if a == Some(127) || a == Some(0) then Loopback
    else if a == Some(169) && b == Some(254) then Private
    else if a == Some(10) then Private
    else if a == Some(192) && b == Some(168) then Private
    else if a == Some(172) && b.Some? && 16 <= b.value <= 31 then Private
    else if a == Some(100) && b.Some? && 64 <= b.value <= 127 then Private
    else Public
  }

  /** The addresses that share the first `bits` bits with a network. */
  predicate InRange(v: nat, network: nat, bits: nat)
    requires bits <= 32
  {
    network <= v < network + Pow2(32 - bits)
  }

  function Network(a: nat, b: nat): nat
  {
    a * K24 + b * K16
  }

  const METADATA: nat := 169 * K24 + 254 * K16 + 169 * 256 + 254

  /** The class of an address, by its ranges: 127/8 and 0/8; 169.254/16, 10/8, 192.168/16,
      172.16/12 and 100.64/10; and the metadata address. */
  function ClassOf(v: nat): HostClass
  {
    if v == METADATA then Metadata
    else if InRange(v, Network(127, 0), 8) || InRange(v, Network(0, 0), 8) then Loopback
    else if InRange(v, Network(169, 254), 16) || InRange(v, Network(10, 0), 8) || InRange(v, Network(192, 168), 16)
         || InRange(v, Network(172, 16), 12) || InRange(v, Network(100, 64), 10) then Private
    else Public
  }

  lemma PowersToo()
    ensures Pow2(20) == 0x10_0000 && Pow2(22) == 0x40_0000
  {
    Powers();
    assert Pow2(20) == 16 * Pow2(16);
    assert Pow2(22) == 4 * Pow2(20);
  }

  lemma OctetRanges(v: nat)
    requires v < K32
    ensures var a, b := v / K24 % 256, v / K16 % 256;
      && a * K24 + b * K16 <= v < a * K24 + b * K16 + K16 && a < 256 && b < 256
  {
    OctetsRecompose(v);
  }

  lemma MetadataText()
    ensures METADATA < K32 && Dotted(METADATA) == "169.254.169.254"
  {
    assert Octets(METADATA) == [169, 254, 169, 254];
    assert Decimal(169) == "169" by { assert Decimal(1) == "1"; assert Decimal(16) == "16"; }
    assert Decimal(254) == "254" by { assert Decimal(2) == "2"; assert Decimal(25) == "25"; }
    assert Texts([169, 254, 169, 254]) == ["169", "254", "169", "254"];
    assert Join(["169", "254", "169", "254"], ".") == "169.254.169.254" by {
      assert ["169", "254", "169", "254"][1..] == ["254", "169", "254"];
      assert ["254", "169", "254"][1..] == ["169", "254"];
      assert ["169", "254"][1..] == ["254"];
    }
  }

  /** The class of a host is that of the address its text stands for, in any spelling. */
  lemma ClassifiedByRange(s: string)
    requires Parsed(s).Some?
    ensures ClassifyV4(Dotted(Parsed(s).value)) == ClassOf(Parsed(s).value)
  {
    var v := Parsed(s).value;
    hide Parsed, Dotted, Number, Numbers, Split, Join;
    SplitDotted(v);
    var o := Octets(v);
    NumberOfDecimal(o[0]);
    NumberOfDecimal(o[1]);
    MetadataText();
    assert Dotted(v) == "169.254.169.254" <==> v == METADATA by {
      ParsedDotted(v);
      ParsedDotted(METADATA);
    }
    RangeClass(v, o[0], o[1]);
  }

  /** The tests on the first two octets are the range tests. */
  lemma RangeClass(v: nat, a: nat, b: nat)
    requires v < K32 && a == v / K24 % 256 && b == v / K16 % 256
    ensures InRange(v, Network(127, 0), 8) <==> a == 127
    ensures InRange(v, Network(0, 0), 8) <==> a == 0
    ensures InRange(v, Network(169, 254), 16) <==> a == 169 && b == 254
    ensures InRange(v, Network(10, 0), 8) <==> a == 10
    ensures InRange(v, Network(192, 168), 16) <==> a == 192 && b == 168
    ensures InRange(v, Network(172, 16), 12) <==> a == 172 && 16 <= b <= 31
    ensures InRange(v, Network(100, 64), 10) <==> a == 100 && 64 <= b <= 127
  {
    Powers();
    PowersToo();
    OctetRanges(v);
    hide Pow2;
  }
}
