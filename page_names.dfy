/**
 * The name of each page's output file, `fmt.Sprintf("page_%03d.png", pageNum+1)` in `convertPage`
 * (main.go): the 1-based page number in decimal, padded with zeros to at least three digits.
 */
module PageNames {

  predicate IsDigit(c: char)
  {
    '0' <= c <= '9'
  }

  predicate AllDigits(s: string)
  {
    forall i :: 0 <= i < |s| ==> IsDigit(s[i])
  }

  function DigitChar(d: nat): (c: char)
    requires d < 10
    ensures IsDigit(c) && c as int - '0' as int == d
  {
    ('0' as int + d) as char
  }

  /** The decimal digits of `n`, without leading zeros, as `%d` prints a non-negative number. */
  function Decimal(n: nat): (s: string)
    ensures 1 <= |s| && AllDigits(s)
    ensures n < 10 <==> |s| == 1
    ensures s[0] == '0' <==> n == 0
  {
    if n < 10 then [DigitChar(n)] else Decimal(n / 10) + [DigitChar(n % 10)]
  }

  /** A string of `count` zeros. */
  function Zeros(count: nat): (s: string)
    ensures |s| == count && forall i :: 0 <= i < count ==> s[i] == '0'
    ensures AllDigits(s)
  {
    if count == 0 then [] else Zeros(count - 1) + ['0']
  }

  /** `digits` ends `s`. */
  predicate HasSuffixDigits(s: string, digits: string)
  {
    |digits| <= |s| && s[|s| - |digits|..] == digits
  }

  /** `%03d` of a non-negative number: its decimal digits, left-padded with zeros to width three. */
  function ZeroPad3(n: nat): (s: string)
    ensures |s| >= 3 && AllDigits(s)
    ensures |s| == if |Decimal(n)| < 3 then 3 else |Decimal(n)|
    ensures HasSuffixDigits(s, Decimal(n))
    ensures forall i :: 0 <= i < |s| - |Decimal(n)| ==> s[i] == '0'
  {
    var digits := Decimal(n);
    if |digits| < 3 then Zeros(3 - |digits|) + digits else digits
  }

  /** The value of a string of decimal digits, read most significant digit first; the reference inverse. */
  function ParseDecimal(s: string): nat
    requires AllDigits(s)
  {
    if s == [] then 0 else 10 * ParseDecimal(s[..|s| - 1]) + (s[|s| - 1] as int - '0' as int)
  }

  lemma {:induction false} DecimalRoundTrip(n: nat)
    ensures ParseDecimal(Decimal(n)) == n
  {
    if n >= 10 {
      var s := Decimal(n);
      assert s[..|s| - 1] == Decimal(n / 10);
      DecimalRoundTrip(n / 10);
    }
  }

  lemma {:induction false} LeadingZeroIsIgnored(s: string)
    requires AllDigits(s)
    ensures ParseDecimal(['0'] + s) == ParseDecimal(s)
  {
    if s != [] {
      var t := ['0'] + s;
      assert t[..|t| - 1] == ['0'] + s[..|s| - 1];
      LeadingZeroIsIgnored(s[..|s| - 1]);
    }
  }

  lemma {:induction false} LeadingZerosAreIgnored(count: nat, s: string)
    requires AllDigits(s)
    ensures ParseDecimal(Zeros(count) + s) == ParseDecimal(s)
  {
    if count > 0 {
      var t := ['0'] + s;
      assert AllDigits(t);
      assert Zeros(count) + s == Zeros(count - 1) + t;
      LeadingZerosAreIgnored(count - 1, t);
      LeadingZeroIsIgnored(s);
    } else {
      assert Zeros(count) + s == s;
    }
  }

  /** The padded number reads back as the number: padding loses nothing. */
  lemma ZeroPad3RoundTrip(n: nat)
    ensures AllDigits(ZeroPad3(n)) && ParseDecimal(ZeroPad3(n)) == n
  {
    var digits := Decimal(n);
    DecimalRoundTrip(n);
    if |digits| < 3 {
      LeadingZerosAreIgnored(3 - |digits|, digits);
    }
  }

  /** The padded number has at least three digits, and exactly three for 1 to 999. */
  lemma ZeroPad3Width(n: nat)
    ensures |ZeroPad3(n)| >= 3
    ensures n <= 999 ==> |ZeroPad3(n)| == 3
  {
    if 10 <= n <= 999 {
      assert |Decimal(n / 10)| <= 2 by {
        if n / 10 >= 10 {
          assert |Decimal(n / 100)| == 1;
        }
      }
    }
  }

  /**
   * `page_%03d.png` for the zero-based page index `pageNum`: the 1-based page number, read back
   * from between the prefix and the extension, is `pageNum + 1`.
   */
  function PageFileName(pageNum: nat): (name: string)
    ensures |name| >= 12 && name[..5] == "page_" && name[|name| - 4..] == ".png"
    ensures AllDigits(name[5..|name| - 4]) && ParseDecimal(name[5..|name| - 4]) == pageNum + 1
    ensures |name| == 12 || name[5] != '0'
  {
    var number := ZeroPad3(pageNum + 1);
    var name := "page_" + number + ".png";
    assert name[5..|name| - 4] == number;
    assert name[5] == number[0];
    ZeroPad3RoundTrip(pageNum + 1);
    name
  }

  /** Different pages get different file names, so no page overwrites another. */
  lemma PageFileNameInjective(a: nat, b: nat)
    ensures a != b ==> PageFileName(a) != PageFileName(b)
  {
    if a != b {
      var na, nb := PageFileName(a), PageFileName(b);
      assert ParseDecimal(na[5..|na| - 4]) != ParseDecimal(nb[5..|nb| - 4]);
    }
  }

  /** Page indices 0 to 998 give names of exactly `page_NNN.png` shape: 12 characters. */
  lemma PageFileNameLength(pageNum: nat)
    requires pageNum < 999
    ensures |PageFileName(pageNum)| == 12
  {
    var number := ZeroPad3(pageNum + 1);
    ZeroPad3Width(pageNum + 1);
    assert |number| == 3;
    assert PageFileName(pageNum) == "page_" + number + ".png";
  }

  /** The second page (index 1) is written to `page_002.png`. */
  lemma ExampleSecondPageFileName()
    ensures PageFileName(1) == "page_002.png"
  {
    var number := ZeroPad3(2);
    assert number == "002" by {
      assert Decimal(2) == "2";
      assert Zeros(1) == "0";
      assert Zeros(2) == Zeros(1) + ['0'] == "00";
    }
    assert PageFileName(1) == "page_" + number + ".png";
  }

  /** The thousandth page (index 999) is written to `page_1000.png`, without a leading zero. */
  lemma ExampleThousandthPageFileName()
    ensures PageFileName(999) == "page_1000.png"
  {
    var digits := Decimal(1000);
    assert digits == "1000" by {
      assert Decimal(1) == "1";
      assert Decimal(10) == Decimal(1) + ['0'];
      assert Decimal(100) == Decimal(10) + ['0'];
      assert Decimal(1000) == Decimal(100) + ['0'];
    }
    assert ZeroPad3(1000) == digits;
    assert PageFileName(999) == "page_" + digits + ".png";
  }
}
