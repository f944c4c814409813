/** Which prefix length `subnetAddressCIDR` of cmd/void-init/network.go gives a static address. */
module AddressPrefix {
  import opened Options
  import opened Strings
  import opened Netmask
  import opened NetworkConfig

  // ---------------------------------------------------------------- decimal numbers

  predicate IsDigit(c: char) { '0' <= c <= '9' }

  predicate AllDigits(s: string) {
    forall i | 0 <= i < |s| :: IsDigit(s[i])
  }

  function DigitChar(d: nat): (c: char)
    requires d < 10
    ensures IsDigit(c) && c as int == '0' as int + d
  {
    ('0' as int + d) as char
  }

  /** The number written in decimal. */
  function Decimal(n: nat): (s: string)
    ensures s != "" && AllDigits(s)
  {
    if n < 10 then [DigitChar(n)] else Decimal(n / 10) + [DigitChar(n % 10)]
  }

  lemma {:induction false} DecimalReads(n: nat)
    ensures Digits(Decimal(n)) == Some(n)
  {
    if n < 10 {
      DigitsLast("", DigitChar(n));
      assert "" + [DigitChar(n)] == [DigitChar(n)];
    } else {
      DecimalReads(n / 10);
      DigitsLast(Decimal(n / 10), DigitChar(n % 10));
      TenfoldAndDigit(n);
    }
  }

  lemma TenfoldAndDigit(n: nat)
    ensures 10 * (n / 10) + n % 10 == n
  {
  }

  lemma DigitsLast(s: string, c: char)
    ensures Digits(s + [c]) ==
            if IsDigit(c) && Digits(s).Some? then Some(10 * Digits(s).value + (c as int - '0' as int)) else None
  {
    assert (s + [c])[..|s|] == s;
  }

  lemma {:induction false} DigitsExactly(s: string)
    ensures Digits(s).Some? <==> AllDigits(s)
  {
    if s != "" {
      var init := s[..|s| - 1];
      DigitsExactly(init);
      assert forall i | 0 <= i < |init| :: init[i] == s[i];
    }
  }

  /** A number in decimal, with or without a sign, is read as that number if it fits into 64 bits, and
      refused otherwise. */
  lemma AtoiReadsDecimals(n: nat)
    ensures Atoi(Decimal(n)) == In64Bits(n)
    ensures Atoi("+" + Decimal(n)) == In64Bits(n)
    ensures Atoi("-" + Decimal(n)) == In64Bits(-(n as int))
  {
    var text := Decimal(n);
    DecimalReads(n);
    assert IsDigit(text[0]);
    assert ("+" + text)[1..] == text && ("-" + text)[1..] == text;
  }

  function In64Bits(v: int): Option<int> {
    if -0x8000_0000_0000_0000 <= v < 0x8000_0000_0000_0000 then Some(v) else None
  }

  /** Anything but a sign and digits is refused. */
  lemma AtoiRefusesOthers(s: string)
    requires Atoi(s).Some?
    ensures s != "" && (AllDigits(s) || (s[0] in {'+', '-'} && |s| > 1 && AllDigits(s[1..])))
  {
    DigitsExactly(s);
    if s != "" {
      DigitsExactly(s[1..]);
    }
  }

  // ---------------------------------------------------------------- the prefix of a subnet

  lemma CutSlashAt(a: string, b: string)
    requires '/' !in a
    ensures CutSlash(a + "/" + b) == (a, Some(b)) && CutSlash(a) == (a, None)
  {
    var s := a + "/" + b;
    forall j: nat | j < |a| ensures !OccursAt(s, "/", j) && !OccursAt(a, "/", j) {
      assert s[j..j + 1] == [a[j]] && a[j..j + 1] == [a[j]];
    }
    assert s[|a|..|a| + 1] == "/";
    IndexIsFirst(s, "/", |a|);
    assert s[..|a|] == a && s[|a| + 1..] == b;
  }

  /** A prefix written into the address is the one used, whatever the netmask says. */
  lemma EmbeddedPrefixWins(libs: Libs, s: Subnet, address: string, n: nat)
    requires '/' !in address && s.address == address + "/" + Decimal(n)
    ensures AddressOf(libs, s) == if In64Bits(n).Some? then Some(Cidr(address, n)) else None
  {
    CutSlashAt(address, Decimal(n));
    AtoiReadsDecimals(n);
  }

  /** Something else behind the slash makes the subnet unusable, whatever the netmask says. */
  lemma EmbeddedNonsenseIsRefused(libs: Libs, s: Subnet, address: string, text: string)
    requires '/' !in address && s.address == address + "/" + text
    requires text == "" || !(IsDigit(text[0]) || text[0] in {'+', '-'}) || !AllDigits(text[1..])
    ensures AddressOf(libs, s).None?
  {
    CutSlashAt(address, text);
    if Atoi(text).Some? {
      AtoiRefusesOthers(text);
    }
  }

  /** Without a slash the netmask decides: the whole address is used, with the number of leading ones of a
      netmask that is an IPv4 address made of ones followed by zeros; any other is refused. */
  lemma NetmaskDecides(libs: Libs, s: Subnet, c: Cidr)
    requires '/' !in s.address
    ensures AddressOf(libs, s) == Some(c) <==>
            && c.address == s.address && s.netmask != "" && libs.parseIP4(s.netmask).Some? && c.prefix >= 0
            && var q := libs.parseIP4(s.netmask).value;
               OnesThenZeros([q.a, q.b, q.c, q.d], c.prefix)
  {
    CutSlashAt(s.address, "");
    var mask := QuadMask(libs.parseIP4(s.netmask));
    if mask.Some? && c.prefix >= 0 && OnesThenZeros(mask.value, c.prefix) {
      PrefixLengthUnique(mask.value, c.prefix, PrefixLength(mask).value);
    }
  }
}
