/**
 * The name under which an upload is staged: `Date.now() + "-" + originalname`.
 * The clock reading is a parameter; its rendering is the decimal string that
 * JavaScript gives a non-negative integer.
 */
module UploadName {
  import opened Wrappers

  predicate IsDigit(c: char)
  {
    '0' <= c <= '9'
  }

  predicate IsDigits(s: string)
  {
    forall i :: 0 <= i < |s| ==> IsDigit(s[i])
  }

  /** A non-empty digit string without a superfluous leading zero. */
  predicate IsCanonicalDecimal(s: string)
  {
    s != [] && IsDigits(s) && (s[0] == '0' ==> |s| == 1)
  }

  function DigitChar(d: nat): (c: char)
    requires d < 10
    ensures IsDigit(c) && (c == '0' <==> d == 0)
  {
    (('0' as int) + d) as char
  }

  function DigitValue(c: char): (d: nat)
    requires IsDigit(c)
    ensures d < 10 && DigitChar(d) == c
  {
    (c as int) - ('0' as int)
  }

  /** The decimal rendering of a non-negative integer: a canonical digit
      string, so it never contains "-". */
  function Decimal(n: nat): (r: string)
    ensures IsCanonicalDecimal(r)
    decreases n
  {
    if n < 10 then [DigitChar(n)] else Decimal(n / 10) + [DigitChar(n % 10)]
  }

  /** The number a digit string denotes. */
  function DecimalValue(s: string): nat
    requires IsDigits(s)
  {
    if s == [] then 0 else DecimalValue(s[..|s| - 1]) * 10 + DigitValue(s[|s| - 1])
  }

  lemma {:induction false} DecimalRoundTrip(n: nat)
    ensures DecimalValue(Decimal(n)) == n
    decreases n
  {
    if n >= 10 {
      var p := Decimal(n / 10);
      assert (p + [DigitChar(n % 10)])[..|p|] == p;
      DecimalRoundTrip(n / 10);
    }
  }

  lemma {:induction false} DecimalValuePositive(s: string)
    requires IsDigits(s) && s != [] && s[0] != '0'
    ensures DecimalValue(s) >= 1
    decreases |s|
  {
    if |s| > 1 {
      DecimalValuePositive(s[..|s| - 1]);
    } else {
      assert DigitValue(s[0]) != 0;
    }
  }

  /** Every canonical digit string is the rendering of the number it denotes. */
  lemma {:induction false} DecimalOfValue(s: string)
    requires IsCanonicalDecimal(s)
    ensures Decimal(DecimalValue(s)) == s
    decreases |s|
  {
    var last := DigitValue(s[|s| - 1]);
    if |s| > 1 {
      var p := s[..|s| - 1];
      DecimalValuePositive(p);
      DecimalOfValue(p);
      var v := DecimalValue(s);
      assert v == DecimalValue(p) * 10 + last;
      assert v / 10 == DecimalValue(p) && v % 10 == last;
      assert s == p + [s[|s| - 1]];
    } else {
      assert s == [s[0]];
    }
  }

  /** Distinct numbers have distinct renderings. */
  lemma DecimalInjective(a: nat, b: nat)
    requires Decimal(a) == Decimal(b)
    ensures a == b
  {
    DecimalRoundTrip(a);
    DecimalRoundTrip(b);
  }

  /** The name the multer `filename` callback gives an upload: the clock
      reading in decimal, a "-", then the original file name. */
  function StagedName(timestamp: nat, originalName: string): (name: string)
    ensures |name| > |originalName| && name[|name| - |originalName|..] == originalName
    ensures name[|name| - |originalName| - 1] == '-'
    ensures IsCanonicalDecimal(name[..|name| - |originalName| - 1])
    ensures DecimalValue(name[..|name| - |originalName| - 1]) == timestamp
  {
    var prefix := Decimal(timestamp);
    var name := prefix + "-" + originalName;
    assert name[..|name| - |originalName| - 1] == prefix;
    DecimalRoundTrip(timestamp);
    name
  }

  /** Position of the first `c` in `s`. */
  function IndexOf(s: string, c: char): (r: Option<nat>)
    ensures r.Some? ==> r.value < |s| && s[r.value] == c && c !in s[..r.value]
    ensures r.None? ==> c !in s
  {
    if s == [] then None
    else if s[0] == c then Some(0)
    else match IndexOf(s[1..], c)
      case None => None
      case Some(i) => assert s[..i + 1] == [s[0]] + s[1..][..i]; Some(i + 1)
  }

  /** Reads a staged name back into its clock reading and original name:
      the part before the first "-" must be a canonical decimal. */
  function SplitStagedName(name: string): Option<(nat, string)>
  {
    match IndexOf(name, '-')
    case None => None
    case Some(i) =>
      if IsCanonicalDecimal(name[..i]) then Some((DecimalValue(name[..i]), name[i + 1..]))
      else None
  }

  /** A staged name splits back into what built it. */
  lemma SplitStagedNameRoundTrip(timestamp: nat, originalName: string)
    ensures SplitStagedName(StagedName(timestamp, originalName)) == Some((timestamp, originalName))
  {
    var prefix := Decimal(timestamp);
    var name := StagedName(timestamp, originalName);
    assert name[..|prefix|] == prefix && name[|prefix|] == '-';
    assert '-' !in prefix by {
      forall i | 0 <= i < |prefix| ensures prefix[i] != '-' {
        assert IsDigit(prefix[i]);
      }
    }
    assert IndexOf(name, '-') == Some(|prefix|);
    assert name[|prefix| + 1..] == originalName;
    DecimalRoundTrip(timestamp);
  }

  /** Whatever splits was built by StagedName. */
  lemma SplitStagedNameSound(name: string)
    requires SplitStagedName(name).Some?
    ensures var (timestamp, originalName) := SplitStagedName(name).value;
      StagedName(timestamp, originalName) == name
  {
    var i := IndexOf(name, '-').value;
    DecimalOfValue(name[..i]);
    assert name == name[..i] + "-" + name[i + 1..];
  }

  /** Two staged names coincide only when both the clock reading and the
      original name do. */
  lemma StagedNameInjective(t1: nat, n1: string, t2: nat, n2: string)
    requires StagedName(t1, n1) == StagedName(t2, n2)
    ensures t1 == t2 && n1 == n2
  {
    SplitStagedNameRoundTrip(t1, n1);
    SplitStagedNameRoundTrip(t2, n2);
  }

  /** Uploads staged at distinct instants never collide, whatever their names. */
  lemma DistinctTimestampsDistinctNames(t1: nat, n1: string, t2: nat, n2: string)
    requires t1 != t2
    ensures StagedName(t1, n1) != StagedName(t2, n2)
  {
    SplitStagedNameRoundTrip(t1, n1);
    SplitStagedNameRoundTrip(t2, n2);
  }
}
