/** The English names of numbers: the name that is meant, a parser that reads it back, and the
    program that writes it into a buffer that may be too small. */
module NumberName {
  const ONES: seq<string> := [
    "zero", "one", "two", "three", "four", "five", "six", "seven", "eight", "nine", "ten",
    "eleven", "twelve", "thirteen", "fourteen", "fifteen", "sixteen", "seventeen", "eighteen", "nineteen"]
  const TENS: seq<string> := [
    "", "ten", "twenty", "thirty", "forty", "fifty", "sixty", "seventy", "eighty", "ninety"]

  const BILLION := 1000000000
  const MILLION := 1000000

  // ------------------------------------------------------- the name

  /** The words for the part of a number below 100. */
  function SmallWords(n: nat): seq<string>
    requires n < 100
  {
    var rest := if n >= 20 then n % 10 else n;
    (if n >= 20 then [TENS[n / 10]] else []) + (if rest > 0 then [ONES[rest]] else [])
  }

  function HundredWords(n: nat): seq<string>
    requires n < 1000
  {
    (if n >= 100 then [ONES[n / 100], "hundred"] else []) + SmallWords(n % 100)
  }

  /** The words for how often `unit` goes into n, followed by the name of the unit. */
  function UnitWords(n: nat, unit: nat, name: string): seq<string>
    requires unit in {1000, MILLION, BILLION}
    decreases n, 0
  {
    if n >= unit then Words(n / unit) + [name] else []
  }

  function AllWords(n: nat): seq<string>
    decreases n, 1
  {
    UnitWords(n, BILLION, "billion") + UnitWords(n % BILLION, MILLION, "million")
    + UnitWords(n % MILLION, 1000, "thousand") + HundredWords(n % 1000)
  }

  function Words(n: nat): seq<string>
    decreases n, 2
  {
    if n == 0 then ["zero"] else AllWords(n)
  }

  function Join(words: seq<string>): string {
    if words == [] then "" else if |words| == 1 then words[0] else words[0] + " " + Join(words[1..])
  }

  function Name(n: nat): string {
    Join(Words(n))
  }

  // ------------------------------------------------------- reading a name

  function Split(s: string): (words: seq<string>)
    ensures words != []
  {
    if s == "" then [""]
    else
      var rest := Split(s[1..]);
      if s[0] == ' ' then [""] + rest else [[s[0]] + rest[0]] + rest[1..]
  }

  /** The value of a small number word, 0 for any other. */
  function Value(w: string): nat {
    if w == "one" then 1
    else if w == "two" then 2
    else if w == "three" then 3
    else if w == "four" then 4
    else if w == "five" then 5
    else if w == "six" then 6
    else if w == "seven" then 7
    else if w == "eight" then 8
    else if w == "nine" then 9
    else if w == "ten" then 10
    else if w == "eleven" then 11
    else if w == "twelve" then 12
    else if w == "thirteen" then 13
    else if w == "fourteen" then 14
    else if w == "fifteen" then 15
    else if w == "sixteen" then 16
    else if w == "seventeen" then 17
    else if w == "eighteen" then 18
    else if w == "nineteen" then 19
    else TensValue(w)
  }

  function TensValue(w: string): nat {
    if w == "twenty" then 20
    else if w == "thirty" then 30
    else if w == "forty" then 40
    else if w == "fifty" then 50
    else if w == "sixty" then 60
    else if w == "seventy" then 70
    else if w == "eighty" then 80
    else if w == "ninety" then 90
    else 0
  }

  function UnitValue(w: string): nat {
    if w == "thousand" then 1000
    else if w == "million" then 1000000
    else if w == "billion" then 1000000000
    else 0
  }

  /** What has been read: complete units, the last of them, the number that the next unit will multiply, and
      a bound for the next small number. Words in the wrong order are refused. */
  datatype Reading = Refused | Reading(total: nat, unit: nat, current: nat, bound: nat)

  function ReadHundred(r: Reading): Reading {
    if r.Reading? && 1 <= r.current <= 9 then r.(current := 100 * r.current, bound := 100) else Refused
  }

  /** Larger units come first, and each has a number before it. */
  function ReadUnit(r: Reading, unit: nat): Reading {
    if r.Reading? && r.current > 0 && unit < r.unit then Reading(r.total + unit * r.current, unit, 0, 1000) else Refused
  }

  /** Tens come before ones, and nothing below 20 is added to another word below 20. */
  function ReadSmall(r: Reading, v: nat): Reading {
    if r.Reading? && 0 < v < r.bound then r.(current := r.current + v, bound := if v >= 20 then 10 else 1) else Refused
  }

  function Read(r: Reading, w: string): Reading {
    if w == "hundred" then ReadHundred(r)
    else if UnitValue(w) > 0 then ReadUnit(r, UnitValue(w))
    else ReadSmall(r, Value(w))
  }

  function ReadAll(r: Reading, words: seq<string>): Reading
    decreases |words|
  {
    if words == [] then r else ReadAll(Read(r, words[0]), words[1..])
  }

  /** Nothing has been read yet. */
  const AT_FIRST := Reading(0, 1000000000000, 0, 1000)

  datatype Parsed = NotAName | Number(value: nat)

  function ParseWords(words: seq<string>): Parsed {
    if words == ["zero"] then Number(0)
    else
      var r := ReadAll(AT_FIRST, words);
      if r.Reading? && r.total + r.current > 0 then Number(r.total + r.current) else NotAName
  }

  function Parse(s: string): Parsed {
    ParseWords(Split(s))
  }

  // ------------------------------------------------------- words

  predicate Plain(w: string) {
    w != "" && forall i | 0 <= i < |w| :: 'a' <= w[i] <= 'z'
  }

  predicate AllPlain(words: seq<string>) {
    forall w | w in words :: Plain(w)
  }

  lemma OnesPlain(k: nat)
    requires k < 20
    ensures Plain(ONES[k])
  {}

  lemma TensPlain(k: nat)
    requires 1 <= k < 10
    ensures Plain(TENS[k])
  {}

  lemma UnitsPlain()
    ensures AllPlain(["zero", "hundred", "thousand", "million", "billion"])
  {
    assert Plain("zero") && Plain("hundred") && Plain("thousand") && Plain("million") && Plain("billion");
  }

  lemma HundredWordsPlain(n: nat)
    requires n < 1000
    ensures AllPlain(HundredWords(n)) && (n > 0 ==> HundredWords(n) != [])
  {
    UnitsPlain();
    OnesPlain(n / 100);
    var m := n % 100;
    if m >= 20 { TensPlain(m / 10); }
    OnesPlain(if m >= 20 then m % 10 else m);
  }

  lemma {:induction false} UnitWordsPlain(n: nat, unit: nat, name: string)
    requires unit in {1000, MILLION, BILLION} && Plain(name)
    ensures AllPlain(UnitWords(n, unit, name))
    decreases n, 0
  {
    if n >= unit {
      Quotient(n, unit);
      WordsPlain(n / unit);
    }
  }

  lemma Quotient(n: nat, unit: nat)
    requires unit in {1000, MILLION, BILLION} && n >= unit
    ensures 0 < n / unit < n
  {
    if unit == 1000 {} else if unit == MILLION {} else {}
  }

  lemma PlainConcat(a: seq<string>, b: seq<string>, c: seq<string>, d: seq<string>)
    requires AllPlain(a) && AllPlain(b) && AllPlain(c) && AllPlain(d)
    ensures AllPlain(a + b + c + d)
  {}

  lemma {:induction false} AllWordsPlain(n: nat)
    requires n > 0
    ensures AllPlain(AllWords(n)) && AllWords(n) != []
    decreases n, 1
  {
    hide UnitWords, HundredWords;
    UnitsPlain();
    var b, m, t, h := UnitWords(n, BILLION, "billion"), UnitWords(n % BILLION, MILLION, "million"),
      UnitWords(n % MILLION, 1000, "thousand"), HundredWords(n % 1000);
    assert AllPlain(b) by { assert Plain("billion"); UnitWordsPlain(n, BILLION, "billion"); }
    assert AllPlain(m) by { assert Plain("million"); UnitWordsPlain(n % BILLION, MILLION, "million"); }
    assert AllPlain(t) by { assert Plain("thousand"); UnitWordsPlain(n % MILLION, 1000, "thousand"); }
    HundredWordsPlain(n % 1000);
    PlainConcat(b, m, t, h);
    SomeWord(n);
  }

  lemma SomeWord(n: nat)
    requires n > 0
    ensures AllWords(n) != []
  {
    if n < 1000 { HundredWordsPlain(n % 1000); }
    assert n < BILLION ==> n % BILLION == n;
    assert n < MILLION ==> n % MILLION == n;
  }

  lemma {:induction false} WordsPlain(n: nat)
    ensures AllPlain(Words(n)) && Words(n) != []
    decreases n, 2
  {
    if n == 0 { UnitsPlain(); } else { AllWordsPlain(n); }
  }

  lemma FirstOnes(k: nat)
    requires 1 <= k <= 10
    ensures Value(ONES[k]) == k && UnitValue(ONES[k]) == 0 && ONES[k] != "hundred"
  {
    if k <= 5 {} else {}
  }

  lemma SecondOnes(k: nat)
    requires 11 <= k < 20
    ensures Value(ONES[k]) == k && UnitValue(ONES[k]) == 0 && ONES[k] != "hundred"
  {
    if k <= 15 {} else {}
  }

  lemma OnesValue(r: Reading, k: nat)
    requires 1 <= k < 20
    ensures Read(r, ONES[k]) == ReadSmall(r, k)
  {
    hide Value, UnitValue;
    if k <= 10 { FirstOnes(k); } else { SecondOnes(k); }
  }

  lemma TensAre(k: nat)
    requires 2 <= k < 10
    ensures Value(TENS[k]) == 10 * k && UnitValue(TENS[k]) == 0 && TENS[k] != "hundred"
  {
    if k <= 5 {} else {}
  }

  lemma TensAdd(r: Reading, k: nat)
    requires 2 <= k < 10
    ensures Read(r, TENS[k]) == ReadSmall(r, 10 * k)
  {
    hide Value, UnitValue;
    TensAre(k);
  }

  // ------------------------------------------------------- reading back

  lemma {:induction false} ReadConcat(r: Reading, a: seq<string>, b: seq<string>)
    ensures ReadAll(r, a + b) == ReadAll(ReadAll(r, a), b)
    decreases |a|
  {
    if a == [] {
      assert a + b == b;
    } else {
      assert (a + b)[1..] == a[1..] + b;
      ReadConcat(Read(r, a[0]), a[1..], b);
    }
  }

  lemma ReadOne(r: Reading, w: string)
    ensures ReadAll(r, [w]) == Read(r, w)
  {
    assert [w][1..] == [];
  }

  lemma ReadTwo(r: Reading, v: string, w: string)
    ensures ReadAll(r, [v, w]) == Read(Read(r, v), w)
  {
    assert [v, w][1..] == [w];
    ReadOne(Read(r, v), w);
  }

  /** The words for a part below 100 are accepted where the bound allows that much, and add it. */
  lemma SmallWordsValue(r: Reading, n: nat)
    requires n < 100 && r.Reading? && (n == 0 || n < r.bound)
    ensures var t := ReadAll(r, SmallWords(n));
      t.Reading? && t.total == r.total && t.unit == r.unit && t.current == r.current + n
  {
    hide Read, Value, UnitValue;
    var rest := if n >= 20 then n % 10 else n;
    var tens := if n >= 20 then [TENS[n / 10]] else [];
    var ones := if rest > 0 then [ONES[rest]] else [];
    ReadConcat(r, tens, ones);
    var r' := ReadAll(r, tens);
    if n >= 20 {
      ReadOne(r, TENS[n / 10]);
      TensAdd(r, n / 10);
    }
    if rest > 0 {
      ReadOne(r', ONES[rest]);
      OnesValue(r', rest);
    }
  }

  /** At the beginning of the number that a unit will multiply, or that ends the name. */
  predicate Fresh(r: Reading, total: nat, unit: nat) {
    r == Reading(total, unit, 0, 1000)
  }

  lemma HundredsValue(r: Reading, total: nat, unit: nat, k: nat)
    requires 1 <= k < 10 && Fresh(r, total, unit)
    ensures ReadAll(r, [ONES[k], "hundred"]) == Reading(total, unit, 100 * k, 100)
  {
    hide Value, UnitValue;
    ReadTwo(r, ONES[k], "hundred");
    OnesValue(r, k);
  }

  lemma ReadTwoParts(r: Reading, a: seq<string>, b: seq<string>, x: Reading, y: Reading)
    requires ReadAll(r, a) == x && ReadAll(x, b) == y
    ensures ReadAll(r, a + b) == y
  {
    ReadConcat(r, a, b);
  }

  /** The words for a part below 1000 are accepted, and are worth that. */
  lemma HundredWordsValue(r: Reading, total: nat, unit: nat, n: nat)
    requires n < 1000 && Fresh(r, total, unit)
    ensures var t := ReadAll(r, HundredWords(n)); t.Reading? && t.total == total && t.unit == unit && t.current == n
  {
    hide Read, SmallWords;
    var hundreds := if n >= 100 then [ONES[n / 100], "hundred"] else [];
    ReadConcat(r, hundreds, SmallWords(n % 100));
    if n >= 100 { HundredsValue(r, total, unit, n / 100); }
    SmallWordsValue(ReadAll(r, hundreds), n % 100);
  }

  lemma NoUnits(n: nat)
    requires 0 < n < 1000
    ensures UnitWords(n, BILLION, "billion") == [] && UnitWords(n % BILLION, MILLION, "million") == []
    ensures UnitWords(n % MILLION, 1000, "thousand") == [] && n % 1000 == n
  {
    hide Words;
  }

  /** Below 1000 only hundreds, tens and ones are named. */
  lemma WordsBelowThousand(n: nat)
    requires 0 < n < 1000
    ensures Words(n) == HundredWords(n)
  {
    NoUnits(n);
    assert [] + [] + [] + HundredWords(n) == HundredWords(n);
  }

  /** The last unit read when `unit` has been written, if it is due. */
  function UnitAfter(n: nat, unit: nat, last: nat): nat {
    if n >= unit then unit else last
  }

  lemma UnitNameValue(r: Reading, unit: nat, name: string)
    requires unit in {1000, MILLION, BILLION}
    requires name == if unit == 1000 then "thousand" else if unit == MILLION then "million" else "billion"
    ensures Read(r, name) == ReadUnit(r, unit)
  {}

  lemma UnitWordsValue(total: nat, last: nat, n: nat, unit: nat, name: string)
    requires unit in {1000, MILLION, BILLION} && n < 1000 * unit && unit < last
    requires name == if unit == 1000 then "thousand" else if unit == MILLION then "million" else "billion"
    ensures Fresh(ReadAll(Reading(total, last, 0, 1000), UnitWords(n, unit, name)), total + n - n % unit, UnitAfter(n, unit, last))
  {
    hide Read;
    var r := Reading(total, last, 0, 1000);
    if n >= unit {
      var q := n / unit;
      QuotientBelowThousand(n, unit);
      WordsBelowThousand(q);
      ReadConcat(r, HundredWords(q), [name]);
      HundredWordsValue(r, total, last, q);
      var t := ReadAll(r, HundredWords(q));
      ReadOne(t, name);
      UnitNameValue(t, unit, name);
    } else {
      SmallRemainder(n, unit);
    }
  }

  lemma SmallRemainder(n: nat, unit: nat)
    requires n < unit
    ensures n % unit == n
  {}

  lemma QuotientBelowThousand(n: nat, unit: nat)
    requires unit in {1000, MILLION, BILLION} && unit <= n < 1000 * unit
    ensures 0 < n / unit < 1000 && unit * (n / unit) == n - n % unit
  {
    if unit == 1000 {} else if unit == MILLION {} else {}
  }

  lemma ReadParts(r: Reading, b: seq<string>, m: seq<string>, t: seq<string>, h: seq<string>)
    ensures ReadAll(r, b + m + t + h) == ReadAll(ReadAll(ReadAll(ReadAll(r, b), m), t), h)
  {
    ReadConcat(r, b + m + t, h);
    ReadConcat(r, b + m, t);
    ReadConcat(r, b, m);
  }

  lemma AllWordsValue(n: nat)
    requires n < 1000 * BILLION
    ensures var r := ReadAll(AT_FIRST, AllWords(n)); r.Reading? && r.total == n - n % 1000 && r.current == n % 1000
  {
    hide ReadAll, Read, UnitWords, HundredWords;
    var x, y, z := n - n % BILLION, n - n % MILLION, n - n % 1000;
    Remainders(n);
    var u := UnitAfter(n, BILLION, 1000 * BILLION);
    var v := UnitAfter(n % BILLION, MILLION, u);
    var w := UnitAfter(n % MILLION, 1000, v);
    UnitWordsValue(0, 1000 * BILLION, n, BILLION, "billion");
    UnitWordsValue(x, u, n % BILLION, MILLION, "million");
    UnitWordsValue(y, v, n % MILLION, 1000, "thousand");
    HundredWordsValue(Reading(z, w, 0, 1000), z, w, n % 1000);
    ReadParts(AT_FIRST, UnitWords(n, BILLION, "billion"), UnitWords(n % BILLION, MILLION, "million"),
      UnitWords(n % MILLION, 1000, "thousand"), HundredWords(n % 1000));
  }

  lemma {:induction false} NoZeroWord(n: nat)
    requires 0 < n < 1000 * BILLION
    ensures AllWords(n) != ["zero"]
  {
    hide AllWords;
    AllWordsValue(n);
    ReadOne(AT_FIRST, "zero");
    ZeroIsRefused();
  }

  lemma ZeroIsRefused()
    ensures Read(AT_FIRST, "zero") == Refused
  {}

  /** Reading the words of a number below a million million gives the number. */
  lemma WordsValue(n: nat)
    requires n < 1000 * BILLION
    ensures ParseWords(Words(n)) == Number(n)
  {
    hide AllWords, ReadAll;
    if n > 0 {
      NoZeroWord(n);
      AllWordsValue(n);
    }
  }

  lemma Remainders(n: nat)
    ensures n % BILLION % MILLION == n % MILLION && n % MILLION % 1000 == n % 1000
    ensures n % MILLION <= n % BILLION <= n && n % 1000 <= n % MILLION
  {
    MillionRemainder(n, 1000 * (n / BILLION) + n % BILLION / MILLION, n % BILLION % MILLION);
    ThousandRemainder(n, 1000 * (n / MILLION) + n % MILLION / 1000, n % MILLION % 1000);
  }

  lemma MillionRemainder(n: nat, q: nat, r: nat)
    requires n == MILLION * q + r && r < MILLION
    ensures n % MILLION == r
  {}

  lemma ThousandRemainder(n: nat, q: nat, r: nat)
    requires n == 1000 * q + r && r < 1000
    ensures n % 1000 == r
  {}

  predicate NoSpace(w: string) {
    ' ' !in w
  }

  lemma {:induction false} SplitWord(w: string)
    requires NoSpace(w)
    ensures Split(w) == [w]
  {
    if w != "" {
      SplitWord(w[1..]);
      assert [w[0]] + w[1..] == w;
    }
  }

  lemma {:induction false} SplitFirst(w: string, s: string)
    requires NoSpace(w)
    ensures Split(w + " " + s) == [w] + Split(s)
  {
    var all := w + " " + s;
    if w == "" {
      assert all[1..] == s;
    } else {
      assert all[1..] == w[1..] + " " + s;
      SplitFirst(w[1..], s);
      assert [w[0]] + w[1..] == w;
    }
  }

  lemma {:induction false} SplitJoin(words: seq<string>)
    requires words != [] && forall w | w in words :: NoSpace(w)
    ensures Split(Join(words)) == words
  {
    if |words| == 1 {
      SplitWord(words[0]);
    } else {
      SplitJoin(words[1..]);
      SplitFirst(words[0], Join(words[1..]));
      assert [words[0]] + words[1..] == words;
    }
  }

  /** The order of the words matters to the parser. */
  lemma WrongOrderIsRefused()
    ensures ParseWords(["forty", "two"]) == Number(42) && ParseWords(["two", "forty"]) == NotAName
    ensures ParseWords(["one", "thousand", "two", "million"]) == NotAName
  {
    ReadTwo(AT_FIRST, "forty", "two");
    ReadTwo(AT_FIRST, "two", "forty");
    ReadTwo(AT_FIRST, "one", "thousand");
    var r := Reading(1000, 1000, 0, 1000);
    ReadTwo(r, "two", "million");
    assert ["one", "thousand", "two", "million"] == ["one", "thousand"] + ["two", "million"];
    ReadConcat(AT_FIRST, ["one", "thousand"], ["two", "million"]);
  }

  /** Every unsigned number can be read back from its name, by a parser with a vocabulary of its own that refuses
      words in any other order. */
  lemma ParseName(n: nat)
    requires n < 1000 * BILLION
    ensures Parse(Name(n)) == Number(n)
  {
    WordsPlain(n);
    SplitJoin(Words(n));
    WordsValue(n);
  }

  /** Different numbers have different names. */
  lemma NamesAreDistinct(m: nat, n: nat)
    requires m < 1000 * BILLION && n < 1000 * BILLION && Name(m) == Name(n)
    ensures m == n
  {
    ParseName(m);
    ParseName(n);
  }

  // ------------------------------------------------------- the buffer

  function Take(s: string, n: nat): string {
    if |s| <= n then s else s[..n]
  }

  /** The first characters of `s` that leave room for the final NUL are in the part of the
      buffer that starts at `off` and has `size` characters; `i` is their number. */
  ghost predicate Holds(z: array<char>, off: nat, size: nat, i: nat, s: string)
    reads z
  {
    && size >= 1 && off + size <= z.Length
    && i == |Take(s, size - 1)| && z[off..off + i] == Take(s, size - 1)
  }

  twostate predicate OutsideUnchanged(z: array<char>, off: nat, size: nat)
    reads z
  {
    forall k | 0 <= k < z.Length && !(off <= k < off + size) :: z[k] == old(z[k])
  }

  /** sqlite3_snprintf of a text: as much of it as fits, and a NUL. */
  method Snprintf(size: nat, z: array<char>, at: nat, text: string) returns (ghost m: nat)
    requires size >= 1 && at + size <= z.Length
    modifies z
    ensures m == |Take(text, size - 1)| < size && z[at..at + m] == Take(text, size - 1)
    ensures z[at + m] == '\0'
    ensures OutsideUnchanged(z, at, size)
  {
    var i := 0;
    while i < size - 1 && i < |text|
      invariant 0 <= i <= size - 1 && i <= |text|
      invariant z[at..at + i] == text[..i]
      invariant OutsideUnchanged(z, at, size)
    {
      z[at + i] := text[i];
      i := i + 1;
    }
    z[at + i] := '\0';
    m := i;
  }

  method StrLen(z: array<char>, at: nat, ghost end: nat) returns (n: nat)
    requires at <= end < z.Length && z[end] == '\0' && forall k | at <= k < end :: z[k] != '\0'
    ensures n == end - at
  {
    n := 0;
    while z[at + n] != '\0'
      invariant at + n <= end
      decreases end - n
    {
      n := n + 1;
    }
  }

  predicate NoNul(s: string) {
    forall k | 0 <= k < |s| :: s[k] != '\0'
  }

  lemma TakeAppend(s: string, t: string, n: nat)
    ensures |Take(s, n)| <= n && Take(s + t, n) == Take(s, n) + Take(t, n - |Take(s, n)|)
  {}

  lemma PlainPart(text: string, n: nat)
    requires NoNul(text)
    ensures NoNul(Take(text, n))
  {}

  /** Writes a text where the last one ended; `m` characters of it fit. */
  method Extend(z: array<char>, off: nat, size: nat, i: nat, ghost s: string, text: string) returns (ghost m: nat)
    requires Holds(z, off, size, i, s) && NoNul(text)
    modifies z
    ensures Holds(z, off, size, i + m, s + text) && off + i + m < z.Length && z[off + i + m] == '\0'
    ensures forall k | off + i <= k < off + i + m :: z[k] != '\0'
    ensures OutsideUnchanged(z, off, size)
  {
    hide Take;
    TakeAppend(s, text, size - 1);
    ghost var before := z[off..off + i];
    PlainPart(text, size - i - 1);
    m := Snprintf(size - i, z, off + i, text);
    assert z[off..off + i] == before;
    HoldsLonger(z, off, size, i, m, s, text);
    SliceNoNul(z, off + i, off + i + m);
  }

  lemma HoldsLonger(z: array<char>, off: nat, size: nat, i: nat, m: nat, s: string, t: string)
    requires Holds(z, off, size, i, s) && i < size && off + i + m <= z.Length
    requires m == |Take(t, size - i - 1)| && z[off + i..off + i + m] == Take(t, size - i - 1)
    ensures Holds(z, off, size, i + m, s + t)
  {
    hide Take;
    TakeAppend(s, t, size - 1);
    SliceConcat(z, off, off + i, off + i + m);
  }

  lemma SliceConcat(z: array<char>, a: nat, b: nat, c: nat)
    requires a <= b <= c <= z.Length
    ensures z[a..c] == z[a..b] + z[b..c]
  {}

  lemma SliceNoNul(z: array<char>, a: nat, b: nat)
    requires a <= b <= z.Length && NoNul(z[a..b])
    ensures forall k | a <= k < b :: z[k] != '\0'
  {
    forall k | a <= k < b ensures z[k] != '\0' { assert z[k] == z[a..b][k - a]; }
  }

  /** Appends a text where the last one ended. */
  method Append(z: array<char>, off: nat, size: nat, i: nat, ghost s: string, text: string) returns (j: nat)
    requires Holds(z, off, size, i, s) && NoNul(text)
    modifies z
    ensures Holds(z, off, size, j, s + text) && off + j < z.Length && z[off + j] == '\0'
    ensures OutsideUnchanged(z, off, size)
  {
    ghost var m := Extend(z, off, size, i, s, text);
    var n := StrLen(z, off + i, off + i + m);
    j := i + n;
  }

  /** A space, unless nothing was written before or there is no room for more. */
  method Separate(z: array<char>, off: nat, size: nat, i: nat, ghost s: string) returns (j: nat)
    requires Holds(z, off, size, i, s)
    modifies z
    ensures Holds(z, off, size, j, if s == "" then s else s + " ")
    ensures OutsideUnchanged(z, off, size)
  {
    j := i;
    TakeAppend(s, " ", size - 1);
    if i != 0 && i < size - 1 {
      ghost var before := z[off..off + i];
      z[off + i] := ' ';
      j := i + 1;
      assert z[off..off + j] == before + [' '];
    }
  }

  function Spaced(words: seq<string>): string {
    if words == [] then "" else Join(words) + " "
  }

  lemma {:induction false} JoinConcat(a: seq<string>, b: seq<string>)
    requires b != []
    ensures Join(a + b) == Spaced(a) + Join(b)
  {
    if a == [] {
      assert a + b == b;
    } else {
      assert (a + b)[1..] == a[1..] + b;
      JoinConcat(a[1..], b);
      if |a| == 1 { assert a[1..] + b == b; }
    }
  }

  /** The buffer holds the words, and a NUL behind them. */
  ghost predicate HoldsWords(z: array<char>, off: nat, size: nat, i: nat, words: seq<string>)
    reads z
  {
    Holds(z, off, size, i, Join(words)) && AllPlain(words) && (words != [] ==> off + i < z.Length && z[off + i] == '\0')
  }

  /** A name written after `s` continues `s`. */
  method WriteName(n: nat, z: array<char>, off: nat, size: nat, i: nat, ghost s: string) returns (j: nat)
    requires Holds(z, off, size, i, s)
    modifies z
    ensures Holds(z, off, size, j, s + Name(n))
    ensures OutsideUnchanged(z, off, size)
    decreases n, 3
  {
    ghost var before := z[off..off + i];
    TakeAppend(s, Name(n), size - 1);
    var k := NumberName(n, z, off + i, size - i);
    assert z[off..off + i] == before;
    HoldsLonger(z, off, size, i, k, s, Name(n));
    j := i + k;
  }

  lemma JoinPlain(words: seq<string>)
    requires AllPlain(words)
    ensures Join(words) == "" <==> words == []
  {
    if words != [] { assert Plain(words[0]); }
  }

  lemma NamedUnit(words: seq<string>, q: seq<string>, name: string)
    requires q != []
    ensures Spaced(words) + Join(q) + (" " + name) == Join(words + (q + [name]))
  {
    JoinConcat(words, q + [name]);
    JoinConcat(q, [name]);
    assert Join(q + [name]) == Join(q) + " " + name;
    assert Spaced(words) + Join(q) + (" " + name) == Spaced(words) + (Join(q) + " " + name);
  }

  /** How many times `unit` goes into n, and the name of the unit. */
  method WriteUnit(n: nat, unit: nat, name: string, z: array<char>, off: nat, size: nat, i: nat, ghost words: seq<string>)
    returns (j: nat)
    requires unit in {1000, MILLION, BILLION} && Plain(name) && HoldsWords(z, off, size, i, words)
    modifies z
    ensures HoldsWords(z, off, size, j, words + UnitWords(n, unit, name))
    ensures OutsideUnchanged(z, off, size)
    decreases n, 0
  {
    j := i;
    UnitWordsPlain(n, unit, name);
    if n >= unit {
      Quotient(n, unit);
      JoinPlain(words);
      j := Separate(z, off, size, i, Join(words));
      j := WriteName(n / unit, z, off, size, j, Spaced(words));
      j := Append(z, off, size, j, Spaced(words) + Name(n / unit), " " + name);
      WordsPlain(n / unit);
      NamedUnit(words, Words(n / unit), name);
    } else {
      assert words + UnitWords(n, unit, name) == words;
    }
  }

  /** One or two words. */
  method WriteWords(text: string, ghost more: seq<string>, z: array<char>, off: nat, size: nat, i: nat, ghost words: seq<string>)
    returns (j: nat)
    requires more != [] && AllPlain(more) && text == Join(more) && NoNul(text)
    requires HoldsWords(z, off, size, i, words)
    modifies z
    ensures HoldsWords(z, off, size, j, words + more)
    ensures OutsideUnchanged(z, off, size)
  {
    j := Separate(z, off, size, i, Join(words));
    JoinPlain(words);
    j := Append(z, off, size, j, Spaced(words), text);
    JoinConcat(words, more);
  }

  lemma HundredJoined(k: nat)
    requires k < 20
    ensures Join([ONES[k], "hundred"]) == ONES[k] + " hundred" && NoNul(ONES[k] + " hundred")
    ensures AllPlain([ONES[k], "hundred"])
  {
    OnesPlain(k);
    UnitsPlain();
    assert [ONES[k], "hundred"][1..] == ["hundred"];
  }

  lemma HundredsSplit(words: seq<string>, n: nat, hundreds: seq<string>)
    requires n < 1000 && hundreds == if n >= 100 then [ONES[n / 100], "hundred"] else []
    ensures words + hundreds + SmallWords(n % 100) == words + HundredWords(n)
  {}

  /** How many hundreds there are. */
  method WriteHundred(n: nat, z: array<char>, off: nat, size: nat, i: nat, ghost words: seq<string>)
    returns (j: nat, ghost hundreds: seq<string>)
    requires n < 1000 && HoldsWords(z, off, size, i, words)
    modifies z
    ensures hundreds == if n >= 100 then [ONES[n / 100], "hundred"] else []
    ensures HoldsWords(z, off, size, j, words + hundreds)
    ensures OutsideUnchanged(z, off, size)
  {
    j, hundreds := i, [];
    if n >= 100 {
      HundredJoined(n / 100);
      hundreds := [ONES[n / 100], "hundred"];
      j := WriteWords(ONES[n / 100] + " hundred", hundreds, z, off, size, j, words);
    } else {
      assert words + hundreds == words;
    }
  }

  /** The part below 1000. */
  method WriteHundreds(n: nat, z: array<char>, off: nat, size: nat, i: nat, ghost words: seq<string>) returns (j: nat)
    requires n < 1000 && HoldsWords(z, off, size, i, words)
    modifies z
    ensures HoldsWords(z, off, size, j, words + HundredWords(n))
    ensures OutsideUnchanged(z, off, size)
  {
    ghost var hundreds: seq<string>;
    j, hundreds := WriteHundred(n, z, off, size, i, words);
    j := WriteSmall(n % 100, z, off, size, j, words + hundreds);
    HundredsSplit(words, n, hundreds);
  }

  /** The part below 100. */
  method WriteSmall(n: nat, z: array<char>, off: nat, size: nat, i: nat, ghost words: seq<string>) returns (j: nat)
    requires n < 100 && HoldsWords(z, off, size, i, words)
    modifies z
    ensures HoldsWords(z, off, size, j, words + SmallWords(n))
    ensures OutsideUnchanged(z, off, size)
  {
    hide HoldsWords;
    j := i;
    ghost var tens: seq<string> := [];
    var m := n;
    if m >= 20 {
      TensPlain(m / 10);
      tens := [TENS[m / 10]];
      j := WriteWords(TENS[m / 10], tens, z, off, size, j, words);
      m := m % 10;
    } else {
      assert words + tens == words;
    }
    ghost var ones: seq<string> := [];
    if m > 0 {
      OnesPlain(m);
      ones := [ONES[m]];
      j := WriteWords(ONES[m], ones, z, off, size, j, words + tens);
    } else {
      assert words + tens + ones == words + tens;
    }
    assert words + tens + ones == words + (tens + ones);
  }

  /** Everything but the name of zero. */
  method WriteParts(n: nat, z: array<char>, off: nat, size: nat) returns (i: nat)
    requires size >= 1 && off + size <= z.Length
    modifies z
    ensures HoldsWords(z, off, size, i, AllWords(n))
    ensures OutsideUnchanged(z, off, size)
    decreases n, 1
  {
    assert Plain("billion") && Plain("million") && Plain("thousand");
    i := WriteUnit(n, BILLION, "billion", z, off, size, 0, []);
    ghost var ws := UnitWords(n, BILLION, "billion");
    assert [] + ws == ws;
    i := WriteUnit(n % BILLION, MILLION, "million", z, off, size, i, ws);
    ws := ws + UnitWords(n % BILLION, MILLION, "million");
    i := WriteUnit(n % MILLION, 1000, "thousand", z, off, size, i, ws);
    ws := ws + UnitWords(n % MILLION, 1000, "thousand");
    i := WriteHundreds(n % 1000, z, off, size, i, ws);
  }

  lemma NothingForZero()
    ensures Join(AllWords(0)) == "" && Name(0) == "zero"
  {}

  /** No character was written only for zero, or because there was room for none. */
  lemma NothingWritten(n: nat, size: nat)
    requires size >= 1 && |Take(Join(AllWords(n)), size - 1)| == 0 && AllPlain(AllWords(n))
    ensures Take(Name(n), size - 1) == Take("zero", size - 1)
  {
    if n == 0 {
      NothingForZero();
    } else {
      SomeWord(n);
      JoinPlain(AllWords(n));
    }
  }

  lemma SomethingWritten(n: nat, size: nat)
    requires size >= 1 && |Take(Join(AllWords(n)), size - 1)| > 0
    ensures Name(n) == Join(AllWords(n)) && AllWords(n) != []
  {
    if n == 0 { NothingForZero(); }
  }

  lemma SameHeld(z: array<char>, off: nat, size: nat, i: nat, s: string, t: string)
    requires Holds(z, off, size, i, s) && Take(t, size - 1) == Take(s, size - 1)
    ensures Holds(z, off, size, i, t)
  {}

  method WriteZero(n: nat, z: array<char>, off: nat, size: nat) returns (i: nat)
    requires size >= 1 && off + size <= z.Length && Take(Name(n), size - 1) == Take("zero", size - 1)
    modifies z
    ensures Holds(z, off, size, i, Name(n)) && off + i < z.Length && z[off + i] == '\0'
    ensures OutsideUnchanged(z, off, size)
  {
    assert "" + "zero" == "zero";
    i := Append(z, off, size, 0, "", "zero");
    SameHeld(z, off, size, i, "zero", Name(n));
  }

  /** speedtest1_numbername: writes the name of `n`, or as much of it as fits, with a NUL, into
      the `size` characters of the buffer from `off` on, and returns the number of characters. */
  method NumberName(n: nat, z: array<char>, off: nat, size: nat) returns (i: nat)
    requires size >= 1 && off + size <= z.Length
    modifies z
    ensures Holds(z, off, size, i, Name(n)) && off + i < z.Length && z[off + i] == '\0'
    ensures OutsideUnchanged(z, off, size)
    decreases n, 2
  {
    i := WriteParts(n, z, off, size);
    if i == 0 {
      NothingWritten(n, size);
      i := WriteZero(n, z, off, size);
    } else {
      SomethingWritten(n, size);
    }
  }
}
