/**
 The date pattern printer and parser (src/deps/java/java-date.ts), on the record of calendar
 fields: what JavaScript's Date does between a field record and an instant is not modelled.
 */
module JavaDate {
  import JavaLong
  import opened Wrappers

  // The fields of a date by their pattern letter: year, month (from 0, as Date.getMonth counts), day, hour, minute,
  // second, millisecond.
  type Fields = map<char, int>

  const EPOCH: Fields := map['y' := 1970, 'M' := 0, 'd' := 1, 'H' := 0, 'm' := 0, 's' := 0, 'S' := 0]

  predicate IsLetter(c: char) {
    'A' <= c <= 'Z' || 'a' <= c <= 'z'
  }

  predicate IsDigit(c: char) {
    '0' <= c <= '9'
  }

  // ----- numbers as text -----

  function Digit(d: int): char
    requires 0 <= d < 10
  {
    '0' + d as char
  }

  function DigitValue(c: char): nat
    requires IsDigit(c)
  {
    c as int - '0' as int
  }

  function DigitsOf(n: nat): (s: string)
    ensures |s| >= 1
    ensures forall i :: 0 <= i < |s| ==> IsDigit(s[i])
  {
    if n < 10 then [Digit(n)] else DigitsOf(n / 10) + [Digit(n % 10)]
  }

  // String(value)
  function Text(value: int): string {
    if value < 0 then "-" + DigitsOf(-value) else DigitsOf(value)
  }

  function Zeros(n: nat): (s: string)
    ensures |s| == n
    ensures forall i :: 0 <= i < n ==> s[i] == '0'
  {
    if n == 0 then "" else "0" + Zeros(n - 1)
  }

  function Pad(value: int, width: int): string {
    Zeros(if |Text(value)| < width then width - |Text(value)| else 0) + Text(value)
  }

  // Number(digits)
  function NumberOf(s: string): nat
    requires forall i :: 0 <= i < |s| ==> IsDigit(s[i])
  {
    if s == [] then 0 else 10 * NumberOf(s[..|s| - 1]) + DigitValue(s[|s| - 1])
  }

  lemma {:induction false} NumberOfDigits(n: nat)
    ensures NumberOf(DigitsOf(n)) == n
    decreases n
  {
    var s := DigitsOf(n);
    if n < 10 {
      assert s[..0] == [];
    } else {
      NumberOfDigits(n / 10);
      assert s[..|s| - 1] == DigitsOf(n / 10);
    }
  }

  lemma {:induction false} LeadingZeros(zeros: string, s: string)
    requires forall i :: 0 <= i < |zeros| ==> zeros[i] == '0'
    requires forall i :: 0 <= i < |s| ==> IsDigit(s[i])
    ensures forall i :: 0 <= i < |zeros + s| ==> IsDigit((zeros + s)[i])
    ensures NumberOf(zeros + s) == NumberOf(s)
    decreases |zeros| + |s|
  {
    if s != [] {
      LeadingZeros(zeros, s[..|s| - 1]);
      assert (zeros + s)[..|zeros + s| - 1] == zeros + s[..|s| - 1];
    } else if zeros != [] {
      LeadingZeros(zeros[..|zeros| - 1], []);
      assert (zeros + s)[..|zeros + s| - 1] == zeros[..|zeros| - 1] + [];
    }
  }

  lemma PadReadsBack(value: nat, width: int)
    ensures |Pad(value, width)| >= 1
    ensures |Pad(value, width)| == if |DigitsOf(value)| < width then width else |DigitsOf(value)|
    ensures forall i :: 0 <= i < |Pad(value, width)| ==> IsDigit(Pad(value, width)[i])
    ensures NumberOf(Pad(value, width)) == value
  {
    var zeros := Zeros(if |DigitsOf(value)| < width then width - |DigitsOf(value)| else 0);
    LeadingZeros(zeros, DigitsOf(value));
    NumberOfDigits(value);
  }

  // 10^k, to bound the digits of a value
  function Pow10(k: nat): (p: nat)
    ensures p >= 1
  {
    if k == 0 then 1 else 10 * Pow10(k - 1)
  }

  lemma {:induction false} DigitCount(n: nat, k: nat)
    requires k >= 1 && n < Pow10(k)
    ensures |DigitsOf(n)| <= k
    decreases k
  {
    if n >= 10 {
      assert k >= 2 by {
        assert Pow10(1) == 10;
      }
      DigitCount(n / 10, k - 1);
    }
  }

  lemma QuotientByTen(n: nat, p: nat)
    requires p > 0
    ensures n / (10 * p) == (n / 10) / p
  {
    var q, r := (n / 10) / p, (n / 10) % p;
    assert n / 10 == q * p + r;
    assert 10 * (q * p) == q * (10 * p);
    JavaLong.DivModUnique(n, 10 * p, q, 10 * r + n % 10);
  }

  lemma SplitDigits(n: nat)
    requires n >= 10
    ensures |DigitsOf(n)| == |DigitsOf(n / 10)| + 1
    ensures DigitsOf(n)[|DigitsOf(n)| - 1] as int == '0' as int + n % 10
    ensures forall k :: 0 <= k < |DigitsOf(n / 10)| ==> DigitsOf(n)[k] == DigitsOf(n / 10)[k]
  {
  }

  /** What a number looks like: the decimal digits, most significant first. */
  lemma {:induction false} DigitAt(n: nat, i: nat)
    requires i < |DigitsOf(n)|
    ensures DigitsOf(n)[|DigitsOf(n)| - 1 - i] as int == '0' as int + (n / Pow10(i)) % 10
    decreases n
  {
    if n < 10 {
      assert Pow10(0) == 1;
    } else {
      hide DigitsOf;
      SplitDigits(n);
      if i == 0 {
        assert Pow10(0) == 1;
      } else {
        DigitAt(n / 10, i - 1);
        QuotientByTen(n, Pow10(i - 1));
      }
    }
  }

  lemma {:induction false} DigitBound(n: nat)
    ensures n < Pow10(|DigitsOf(n)|)
    decreases n
  {
    assert Pow10(1) == 10;
    if n >= 10 {
      DigitBound(n / 10);
    }
  }

  lemma {:induction false} Pow10Grows(a: nat, b: nat)
    requires a <= b
    ensures 1 <= Pow10(a) <= Pow10(b)
    decreases b
  {
    if a < b {
      Pow10Grows(a, b - 1);
    } else if a > 0 {
      Pow10Grows(a - 1, a - 1);
    }
  }

  /** A padded number that fits its width shows exactly the digits of that many decimal places. */
  lemma PadShows(value: nat, width: nat, i: nat)
    requires i < width && value < Pow10(width)
    ensures |Pad(value, width)| == width
    ensures Pad(value, width)[width - 1 - i] as int == '0' as int + (value / Pow10(i)) % 10
  {
    hide DigitsOf, NumberOf, Pow10;
    DigitCount(value, width);
    var k := |DigitsOf(value)|;
    if i < k {
      DigitAt(value, i);
    } else {
      DigitBound(value);
      Pow10Grows(k, i);
      JavaLong.DivModUnique(value, Pow10(i), 0, value);
    }
  }

  // ----- patterns -----

  // How often the letter at i repeats from there on.
  function RunAt(p: string, i: nat): (r: nat)
    requires i < |p|
    ensures 1 <= r && i + r <= |p|
    decreases |p| - i
  {
    if i + 1 < |p| && p[i + 1] == p[i] then 1 + RunAt(p, i + 1) else 1
  }

  lemma {:induction false} RunRepeats(p: string, i: nat, j: nat)
    requires i < |p| && i <= j < i + RunAt(p, i)
    ensures p[j] == p[i]
    decreases j - i
  {
    if i < j {
      RunRepeats(p, i + 1, j);
    }
  }

  const LETTERS: set<char> := {'y', 'M', 'd', 'H', 'm', 's', 'S'}

  predicate Supported(letter: char) {
    letter in LETTERS
  }

  // A value for every supported letter and no other.
  ghost predicate Complete(f: Fields) {
    forall c :: c in f <==> Supported(c)
  }

  // The number printed and read for a letter: months count from 1 in text.
  function Shown(f: Fields, letter: char): int
    requires letter in f
  {
    if letter == 'M' then f[letter] + 1 else f[letter]
  }

  function Updated(f: Fields, letter: char, value: int): Fields {
    f[letter := if letter == 'M' then value - 1 else value]
  }

  const MONTHS: seq<string> :=
    ["Jan", "Feb", "Mar", "Apr", "May", "Jun", "Jul", "Aug", "Sep", "Oct", "Nov", "Dec"]

  // The fields of a Date: its month is one of the twelve.
  ghost predicate OfDate(f: Fields) {
    Complete(f) && 0 <= f['M'] < 12
  }

  // JavaScript's % keeps the sign of its left operand.
  function TruncatedMod(a: int, b: int): int
    requires b > 0
  {
    if a >= 0 then a % b else -((-a) % b)
  }

  function FieldText(f: Fields, letter: char, run: nat): Option<string>
    requires OfDate(f)
  {
    if !Supported(letter) then None
    else if letter == 'y' && run == 2 then Some(Pad(TruncatedMod(f['y'], 100), 2))
    else if letter == 'M' && run >= 3 then Some(MONTHS[f['M']])
    else Some(Pad(Shown(f, letter), run))
  }

  // The text of the pattern from i on; None where the source throws for an unsupported letter.
  function Format(f: Fields, p: string, i: nat): Option<string>
    requires OfDate(f) && i <= |p|
    decreases |p| - i
  {
    if i == |p| then Some("")
    else if !IsLetter(p[i]) then Prepend([p[i]], Format(f, p, i + 1))
    else match FieldText(f, p[i], RunAt(p, i))
      case None => None
      case Some(head) => Prepend(head, Format(f, p, i + RunAt(p, i)))
  }

  function Prepend(out: string, rest: Option<string>): Option<string> {
    if rest == None then None else Some(out + rest.value)
  }

  /** Printing fails exactly for patterns with a letter other than the seven. */
  lemma {:induction false} FormatFails(f: Fields, p: string, i: nat)
    requires OfDate(f) && i <= |p|
    ensures Format(f, p, i) == None <==>
      exists j :: i <= j < |p| && ('A' <= p[j] <= 'Z' || 'a' <= p[j] <= 'z') && p[j] !in "yMdHmsS"
    decreases |p| - i
  {
    assert forall c: char :: Supported(c) <==> c in "yMdHmsS";
    if i < |p| && !IsLetter(p[i]) {
      FormatFails(f, p, i + 1);
    } else if i < |p| {
      FormatFails(f, p, i + RunAt(p, i));
      forall j | i <= j < i + RunAt(p, i) ensures p[j] == p[i] {
        RunRepeats(p, i, j);
      }
    }
  }

  // A year of two letters shows its last two digits, with the sign of a year before 0.
  lemma ShortYear(f: Fields)
    requires OfDate(f)
    ensures f['y'] >= 0 ==>
      var text := FieldText(f, 'y', 2);
      && text.Some? && |text.value| == 2
      && text.value[0] as int == '0' as int + (f['y'] % 100) / 10
      && text.value[1] as int == '0' as int + f['y'] % 10
    ensures f['y'] < 0 ==> FieldText(f, 'y', 2) == Some(Pad(-(-f['y'] % 100), 2))
  {
    if f['y'] >= 0 {
      TwoDigits(f['y'] % 100);
      assert (f['y'] % 100) % 10 == f['y'] % 10;
    }
  }

  lemma TwoDigits(n: nat)
    requires n < 100
    ensures |Pad(n, 2)| == 2
    ensures Pad(n, 2)[0] as int == '0' as int + n / 10 && Pad(n, 2)[1] as int == '0' as int + n % 10
  {
    hide Pad;
    assert Pow10(0) == 1 && Pow10(1) == 10 && Pow10(2) == 100;
    PadShows(n, 2, 0);
    PadShows(n, 2, 1);
  }

  // Zeros are put in front of the sign.
  lemma PadNegative(value: int, width: nat, i: nat)
    requires value < 0 && i < |Pad(value, width)|
    ensures var text, n := Pad(value, width), |DigitsOf(-value)|;
            && |text| == (if n + 1 < width then width else n + 1)
            && text[|text| - n..] == DigitsOf(-value) && text[|text| - n - 1] == '-'
            && (i < |text| - n - 1 ==> text[i] == '0')
  {
    var zeros := Zeros(if |Text(value)| < width then width - |Text(value)| else 0);
    assert Pad(value, width) == zeros + "-" + DigitsOf(-value);
  }

  // A month of three letters or more shows the beginning of its English name.
  lemma MonthName(f: Fields, run: nat)
    requires OfDate(f) && run >= 3
    ensures var m := f['M'];
            FieldText(f, 'M', run) == Some([
              "JFMAMJJASOND"[m], "aeapauuuecoe"[m], "nbrrynlgptvc"[m]])
  {
    MonthLetters(f['M']);
  }

  lemma MonthLetters(m: nat)
    requires m < 12
    ensures MONTHS[m] == ["JFMAMJJASOND"[m], "aeapauuuecoe"[m], "nbrrynlgptvc"[m]]
  {
  }

  lemma PrependTwice(out: string, head: string, rest: Option<string>)
    ensures Prepend(out + head, rest) == Prepend(out, Prepend(head, rest))
    ensures Prepend("", rest) == rest
    ensures Prepend(out, Some("")) == Some(out)
  {
    if rest != None {
      assert (out + head) + rest.value == out + (head + rest.value);
      assert "" + rest.value == rest.value;
    }
    assert out + "" == out;
  }

  datatype ParseResult = Parsed(fields: Fields) | Mismatch | Unsupported

  // How many digits are read from the cursor, at most max.
  function DigitRun(text: string, cursor: nat, max: nat): (k: nat)
    requires cursor <= |text|
    ensures k <= max && cursor + k <= |text|
    ensures forall i :: cursor <= i < cursor + k ==> IsDigit(text[i])
    ensures k == max || cursor + k == |text| || !IsDigit(text[cursor + k])
    decreases max
  {
    if max > 0 && cursor < |text| && IsDigit(text[cursor]) then 1 + DigitRun(text, cursor + 1, max - 1) else 0
  }

  // A field that ends at i in front of another field reads its own width, any other runs on to ten digits.
  function ReadWidth(p: string, i: nat, run: nat): nat {
    if i < |p| && IsLetter(p[i]) then run else 10
  }

  // Digits consumed by the field at i, when read from the cursor.
  function FieldDigits(text: string, cursor: nat, p: string, i: nat): (k: nat)
    requires cursor <= |text| && i < |p|
    ensures cursor + k <= |text| && forall j :: cursor <= j < cursor + k ==> IsDigit(text[j])
  {
    DigitRun(text, cursor, ReadWidth(p, i + RunAt(p, i), RunAt(p, i)))
  }

  // Parsing from the cursor against the pattern from i on.
  function Parse(text: string, cursor: nat, p: string, i: nat, fields: Fields): ParseResult
    requires cursor <= |text| && i <= |p|
    decreases |p| - i
  {
    if i == |p| then (if cursor == |text| then Parsed(fields) else Mismatch)
    else if !IsLetter(p[i]) then
      if cursor == |text| || text[cursor] != p[i] then Mismatch else Parse(text, cursor + 1, p, i + 1, fields)
    else
      var k := FieldDigits(text, cursor, p, i);
      if k == 0 then Mismatch
      else if !Supported(p[i]) then Unsupported
      else Parse(text, cursor + k, p, i + RunAt(p, i), Updated(fields, p[i], NumberOf(text[cursor..cursor + k])))
  }

  // ----- which texts parse -----

  // One step of parsing over a field that reads k digits.
  lemma ParseField(text: string, cursor: nat, p: string, i: nat, fields: Fields, run: nat, k: nat, value: int)
    requires cursor <= |text| && i < |p| && IsLetter(p[i]) && run == RunAt(p, i)
    requires k == DigitRun(text, cursor, ReadWidth(p, i + run, run)) && NumberOf(text[cursor..cursor + k]) == value
    ensures k == 0 ==> Parse(text, cursor, p, i, fields) == Mismatch
    ensures k > 0 && !Supported(p[i]) ==> Parse(text, cursor, p, i, fields) == Unsupported
    ensures k > 0 && Supported(p[i]) ==>
      Parse(text, cursor, p, i, fields) == Parse(text, cursor + k, p, i + run, Updated(fields, p[i], value))
  {
    hide RunAt, DigitRun, NumberOf, Updated;
    assert FieldDigits(text, cursor, p, i) == k;
  }

  // A field of k digits at the head of the text: as many as there are, up to the width.
  ghost predicate NumberAhead(text: string, k: nat, width: nat) {
    && 1 <= k <= |text| && k <= width
    && (forall j :: 0 <= j < k ==> IsDigit(text[j]))
    && (k == width || k == |text| || !IsDigit(text[k]))
  }

  // The text is spelled by the pattern from i on and turns the fields `before` into `after`.
  ghost predicate Spells(text: string, p: string, i: nat, before: Fields, after: Fields)
    requires i <= |p|
    decreases |p| - i
  {
    if i == |p| then text == "" && before == after
    else if !IsLetter(p[i]) then text != "" && text[0] == p[i] && Spells(text[1..], p, i + 1, before, after)
    else
      var next := i + RunAt(p, i);
      var width := if next < |p| && IsLetter(p[next]) then RunAt(p, i) else 10;
      p[i] in "yMdHmsS" && exists k: nat ::
        && NumberAhead(text, k, width)
        && var value := NumberOf(text[..k]);
           Spells(text[k..], p, next, before[p[i] := if p[i] == 'M' then value - 1 else value], after)
  }

  lemma NumberAheadRun(text: string, cursor: nat, width: nat, k: nat)
    requires cursor <= |text|
    ensures NumberAhead(text[cursor..], k, width) <==> k > 0 && k == DigitRun(text, cursor, width)
  {
    var rest, d := text[cursor..], DigitRun(text, cursor, width);
    assert forall j :: 0 <= j < |rest| ==> rest[j] == text[cursor + j];
    assert k < |rest| ==> rest[k] == text[cursor + k];
    assert d < |rest| ==> rest[d] == text[cursor + d];
  }

  /**
   A text parses to a record exactly when the pattern spells it to the end: every literal matched, every field a number
   of one to ten digits, or of its own width in front of another field.
   */
  lemma {:induction false} ParsedIffSpelled(text: string, cursor: nat, p: string, i: nat, fields: Fields, after: Fields)
    requires cursor <= |text| && i <= |p|
    ensures Parse(text, cursor, p, i, fields) == Parsed(after) <==> Spells(text[cursor..], p, i, fields, after)
    decreases |p| - i, 1
  {
    hide DigitRun, NumberOf, RunAt;
    var rest := text[cursor..];
    assert forall c: char :: Supported(c) <==> c in "yMdHmsS";
    if i < |p| && !IsLetter(p[i]) {
      if cursor < |text| {
        assert rest[1..] == text[cursor + 1..] && rest[0] == text[cursor];
        ParsedIffSpelled(text, cursor + 1, p, i + 1, fields, after);
      }
    } else if i < |p| {
      FieldSpelled(text, cursor, p, i, fields, after);
    }
  }

  // The only way to read the field at i takes d digits.
  lemma SpelledByField(rest: string, p: string, i: nat, before: Fields, after: Fields, width: nat, d: nat)
    requires i < |p| && IsLetter(p[i]) && d <= |rest| && width == ReadWidth(p, i + RunAt(p, i), RunAt(p, i))
    requires forall k: nat :: NumberAhead(rest, k, width) <==> k > 0 && k == d
    ensures Spells(rest, p, i, before, after) <==>
            && p[i] in "yMdHmsS" && d > 0
            && NumberAhead(rest, d, width)
            && Spells(rest[d..], p, i + RunAt(p, i), Updated(before, p[i], NumberOf(rest[..d])), after)
  {
    hide NumberOf, RunAt, IsLetter;
  }

  lemma {:induction false} FieldSpelled(text: string, cursor: nat, p: string, i: nat, fields: Fields, after: Fields)
    requires cursor <= |text| && i < |p| && IsLetter(p[i])
    ensures Parse(text, cursor, p, i, fields) == Parsed(after) <==> Spells(text[cursor..], p, i, fields, after)
    decreases |p| - i, 0
  {
    hide Parse, Spells, DigitRun, NumberOf, RunAt, Updated, IsLetter;
    var rest, run := text[cursor..], RunAt(p, i);
    var width := ReadWidth(p, i + run, run);
    var d := FieldDigits(text, cursor, p, i);
    forall k: nat ensures NumberAhead(rest, k, width) <==> k > 0 && k == d {
      NumberAheadRun(text, cursor, width, k);
    }
    SpelledByField(rest, p, i, fields, after, width, d);
    assert rest[..d] == text[cursor..cursor + d] && rest[d..] == text[cursor + d..];
    ParseField(text, cursor, p, i, fields, run, d, NumberOf(rest[..d]));
    if d > 0 && Supported(p[i]) {
      ParsedIffSpelled(text, cursor + d, p, i + run, Updated(fields, p[i], NumberOf(rest[..d])), after);
    }
  }

  /** Parsing reports an unsupported letter only for a pattern that has one. */
  lemma {:induction false} UnsupportedLetter(text: string, cursor: nat, p: string, i: nat, fields: Fields)
    requires cursor <= |text| && i <= |p| && Parse(text, cursor, p, i, fields) == Unsupported
    ensures exists j :: i <= j < |p| && IsLetter(p[j]) && p[j] !in "yMdHmsS"
    decreases |p| - i
  {
    hide NumberOf;
    assert forall c: char :: Supported(c) <==> c in "yMdHmsS";
    if !IsLetter(p[i]) {
      UnsupportedLetter(text, cursor + 1, p, i + 1, fields);
    } else if Supported(p[i]) {
      var k := FieldDigits(text, cursor, p, i);
      var fields' := Updated(fields, p[i], NumberOf(text[cursor..cursor + k]));
      UnsupportedLetter(text, cursor + k, p, i + RunAt(p, i), fields');
    }
  }

  // ----- the round trip -----

  // The field at i can be read back: no two-letter year, no month name, at most ten digits, and
  // nothing after it that could be read as part of it.
  ghost predicate CarriesField(f: Fields, p: string, i: nat)
    requires OfDate(f) && i < |p|
  {
    var letter, run := p[i], RunAt(p, i);
    && Supported(letter) && 0 <= Shown(f, letter) < Pow10(10)
    && (letter == 'y' ==> run != 2) && (letter == 'M' ==> run <= 2) && run <= 10
    && (i + run < |p| ==>
         if IsLetter(p[i + run]) then Shown(f, letter) < Pow10(run) else !IsDigit(p[i + run]))
  }

  ghost predicate Carries(f: Fields, p: string, i: nat)
    requires OfDate(f) && i <= |p|
    decreases |p| - i
  {
    i == |p| ||
    if IsLetter(p[i]) then CarriesField(f, p, i) && Carries(f, p, i + RunAt(p, i)) else Carries(f, p, i + 1)
  }

  // The fields whose letters occur are those of f, the others stay as they were.
  ghost function Recovered(f: Fields, letters: string, fields: Fields): Fields
    requires OfDate(f) && Complete(fields)
  {
    map c | c in fields :: if c in letters then f[c] else fields[c]
  }

  lemma RecoverRun(f: Fields, p: string, i: nat, fields: Fields)
    requires OfDate(f) && Complete(fields) && i < |p| && Supported(p[i])
    ensures var fields' := Updated(fields, p[i], Shown(f, p[i]));
            Complete(fields')
            && Recovered(f, p[i..], fields) == Recovered(f, p[i + RunAt(p, i)..], fields')
  {
    var rest, next := p[i..], p[i + RunAt(p, i)..];
    var fields' := Updated(fields, p[i], Shown(f, p[i]));
    var front := p[i..i + RunAt(p, i)];
    assert rest == front + next;
    forall j | 0 <= j < |front| ensures front[j] == p[i] {
      RunRepeats(p, i, i + j);
    }
    assert forall c :: c != p[i] ==> (c in rest <==> c in next);
    assert rest[0] == p[i];
  }

  lemma RecoverLiteral(f: Fields, p: string, i: nat, fields: Fields)
    requires OfDate(f) && Complete(fields) && i < |p| && !IsLetter(p[i])
    ensures Recovered(f, p[i..], fields) == Recovered(f, p[i + 1..], fields)
  {
    assert p[i..] == [p[i]] + p[i + 1..];
  }

  // A padded number in the text is read back whole.
  lemma ReadsPad(text: string, cursor: nat, value: nat, run: nat, rest: string, max: nat)
    requires cursor <= |text| && text[cursor..] == Pad(value, run) + rest
    requires var k := |Pad(value, run)|; k <= max && (k == max || rest == [] || !IsDigit(rest[0]))
    ensures var k := |Pad(value, run)|;
            && k >= 1 && cursor + k <= |text| && text[cursor + k..] == rest
            && DigitRun(text, cursor, max) == k
            && NumberOf(text[cursor..cursor + k]) == value
  {
    hide DigitsOf, Zeros, Text;
    PadReadsBack(value, run);
    var p, tail := Pad(value, run), text[cursor..];
    assert text[cursor..cursor + |p|] == p;
    assert text[cursor + |p|..] == rest;
    assert forall i :: cursor <= i < cursor + |p| ==> text[i] == p[i - cursor];
    assert rest != [] ==> text[cursor + |p|] == rest[0];
  }

  lemma LiteralFirst(f: Fields, p: string, i: nat, rest: string)
    requires OfDate(f) && i <= |p| && Format(f, p, i) == Some(rest)
    ensures i == |p| ==> rest == []
    ensures i < |p| && !IsLetter(p[i]) ==> rest != [] && rest[0] == p[i]
  {
  }

  // A carried field prints as a padded number that ends where reading it must stop.
  lemma CarriedField(f: Fields, p: string, i: nat, rest: string) returns (value: int)
    requires OfDate(f) && i < |p| && IsLetter(p[i]) && CarriesField(f, p, i)
    requires Format(f, p, i + RunAt(p, i)) == Some(rest)
    ensures Supported(p[i]) && Shown(f, p[i]) == value && value >= 0
    ensures FieldText(f, p[i], RunAt(p, i)) == Some(Pad(value, RunAt(p, i)))
    ensures var k, max := |Pad(value, RunAt(p, i))|, ReadWidth(p, i + RunAt(p, i), RunAt(p, i));
            k <= max && (k == max || rest == [] || !IsDigit(rest[0]))
  {
    hide RunAt, Format, DigitsOf, NumberOf, Zeros, Text, Pow10;
    var run := RunAt(p, i);
    value := Shown(f, p[i]);
    PadReadsBack(value, run);
    if i + run < |p| && IsLetter(p[i + run]) {
      DigitCount(value, run);
    } else {
      DigitCount(value, 10);
      LiteralFirst(f, p, i + run, rest);
    }
  }

  lemma LiteralHead(text: string, cursor: nat, c: char, rest: string)
    requires cursor <= |text| && text[cursor..] == [c] + rest
    ensures cursor < |text| && text[cursor] == c && text[cursor + 1..] == rest
  {
    var tail := text[cursor..];
    assert tail[0] == c && tail[1..] == rest;
    assert text[cursor + 1..] == tail[1..];
  }

  lemma {:induction false} CarriesFormats(f: Fields, p: string, i: nat)
    requires OfDate(f) && i <= |p| && Carries(f, p, i)
    ensures Format(f, p, i).Some?
    decreases |p| - i
  {
    if i < |p| {
      CarriesFormats(f, p, if IsLetter(p[i]) then i + RunAt(p, i) else i + 1);
    }
  }

  lemma LiteralRead(text: string, cursor: nat, f: Fields, p: string, i: nat, fields: Fields)
    requires OfDate(f) && i < |p| && !IsLetter(p[i]) && Carries(f, p, i)
    requires cursor <= |text| && Format(f, p, i) == Some(text[cursor..])
    ensures cursor < |text| && Format(f, p, i + 1) == Some(text[cursor + 1..])
    ensures Parse(text, cursor, p, i, fields) == Parse(text, cursor + 1, p, i + 1, fields)
  {
    CarriesFormats(f, p, i + 1);
    LiteralHead(text, cursor, p[i], Format(f, p, i + 1).value);
  }

  lemma CarriesNext(f: Fields, p: string, i: nat)
    requires OfDate(f) && i < |p| && IsLetter(p[i]) && Carries(f, p, i)
    ensures CarriesField(f, p, i) && Carries(f, p, i + RunAt(p, i))
  {
  }

  lemma FormatField(f: Fields, p: string, i: nat, head: string, rest: string)
    requires OfDate(f) && i < |p| && IsLetter(p[i])
    requires FieldText(f, p[i], RunAt(p, i)) == Some(head) && Format(f, p, i + RunAt(p, i)) == Some(rest)
    ensures Format(f, p, i) == Some(head + rest)
  {
  }

  // The text of a carried field, and what reading it gives.
  lemma FieldRead(text: string, cursor: nat, f: Fields, p: string, i: nat) returns (k: nat, value: int)
    requires OfDate(f) && i < |p| && IsLetter(p[i]) && Carries(f, p, i)
    requires cursor <= |text| && Format(f, p, i) == Some(text[cursor..])
    ensures Supported(p[i]) && Shown(f, p[i]) == value && Carries(f, p, i + RunAt(p, i))
    ensures cursor + k <= |text| && Format(f, p, i + RunAt(p, i)) == Some(text[cursor + k..])
    ensures k > 0 && k == FieldDigits(text, cursor, p, i) && NumberOf(text[cursor..cursor + k]) == value
  {
    hide Format, Carries, CarriesField, RunAt, DigitRun, NumberOf, Pad, FieldText;
    var run := RunAt(p, i);
    CarriesNext(f, p, i);
    CarriesFormats(f, p, i + run);
    var rest := Format(f, p, i + run).value;
    value := CarriedField(f, p, i, rest);
    FormatField(f, p, i, Pad(value, run), rest);
    k := |Pad(value, run)|;
    ReadsPad(text, cursor, value, run, rest, ReadWidth(p, i + run, run));
  }

  /**
   Round trip: for any pattern that carries the fields, parsing consumes all of the printed text and gives back every
   field the pattern names.
   */
  lemma {:induction false} ParseFormat(text: string, cursor: nat, f: Fields, p: string, i: nat, fields: Fields)
    requires OfDate(f) && Complete(fields) && i <= |p| && Carries(f, p, i)
    requires cursor <= |text| && Format(f, p, i) == Some(text[cursor..])
    ensures Parse(text, cursor, p, i, fields) == Parsed(Recovered(f, p[i..], fields))
    decreases |p| - i, 1
  {
    if i == |p| {
      assert |text[cursor..]| == 0;
      assert Recovered(f, p[i..], fields) == fields;
    } else if !IsLetter(p[i]) {
      LiteralRead(text, cursor, f, p, i, fields);
      RecoverLiteral(f, p, i, fields);
      ParseFormat(text, cursor + 1, f, p, i + 1, fields);
    } else {
      ParseFormatField(text, cursor, f, p, i, fields);
    }
  }

  lemma {:induction false} ParseFormatField(text: string, cursor: nat, f: Fields, p: string, i: nat, fields: Fields)
    requires OfDate(f) && Complete(fields) && i < |p| && IsLetter(p[i]) && Carries(f, p, i)
    requires cursor <= |text| && Format(f, p, i) == Some(text[cursor..])
    ensures Parse(text, cursor, p, i, fields) == Parsed(Recovered(f, p[i..], fields))
    decreases |p| - i, 0
  {
    hide Parse, Format, Carries, RunAt, Recovered, Supported;
    var k, value := FieldRead(text, cursor, f, p, i);
    ParseField(text, cursor, p, i, fields, RunAt(p, i), k, value);
    RecoverRun(f, p, i, fields);
    ParseFormat(text, cursor + k, f, p, i + RunAt(p, i), Updated(fields, p[i], value));
  }

  /** Printing then parsing succeeds and recovers every field whose letter occurs in the pattern. */
  lemma RoundTrip(f: Fields, p: string)
    requires OfDate(f) && Carries(f, p, 0)
    ensures Format(f, p, 0).Some?
    ensures Parse(Format(f, p, 0).value, 0, p, 0, EPOCH) == Parsed(Recovered(f, p, EPOCH))
  {
    CarriesFormats(f, p, 0);
    var text := Format(f, p, 0).value;
    assert text[0..] == text && p[0..] == p;
    ParseFormat(text, 0, f, p, 0, EPOCH);
  }

  // The patterns of src/utils/date-utils.ts, and the time of day on its own
  const DAY_PATTERN := "yyyy-MM-dd"
  const DATETIME_PATTERN := "yyyy-MM-dd HH:mm:ss"
  const DATETIME_MS_PATTERN := "yyyy-MM-dd HH:mm:ss.SSS"
  const TIME_PATTERN := "HH:mm:ss.SSS"

  ghost predicate TenDigits(f: Fields, letters: string) {
    forall c :: c in f && c in letters ==> 0 <= Shown(f, c) < Pow10(10)
  }

  // A run of the letter at i that ends with the pattern or in front of a separator.
  ghost predicate Separated(p: string, i: nat, run: nat) {
    && i + run <= |p| && 1 <= run <= 10
    && (forall j :: i <= j < i + run ==> p[j] == p[i]) && Supported(p[i]) && IsLetter(p[i])
    && (p[i] == 'y' ==> run != 2) && (p[i] == 'M' ==> run <= 2)
    && (i + run < |p| ==> !IsLetter(p[i + run]) && !IsDigit(p[i + run]))
  }

  lemma CarriesSeparated(f: Fields, p: string, i: nat, run: nat)
    requires OfDate(f) && Separated(p, i, run) && 0 <= Shown(f, p[i]) < Pow10(10)
    requires i + run < |p| ==> Carries(f, p, i + run + 1)
    ensures Carries(f, p, i)
  {
    RunLength(p, i, run);
  }

  // What a separated field and its separator add to the text.
  lemma FormatSeparated(f: Fields, p: string, i: nat, run: nat, rest: string)
    requires OfDate(f) && Separated(p, i, run)
    requires i + run < |p| ==> Format(f, p, i + run + 1) == Some(rest)
    ensures Format(f, p, i) == Some(Pad(Shown(f, p[i]), run) + if i + run < |p| then [p[i + run]] + rest else "")
  {
    hide Pad, Format;
    RunLength(p, i, run);
    if i + run < |p| {
      FormatLiteral(f, p, i + run, rest);
      FormatField(f, p, i, Pad(Shown(f, p[i]), run), [p[i + run]] + rest);
    } else {
      FormatEnd(f, p);
      FormatField(f, p, i, Pad(Shown(f, p[i]), run), "");
    }
  }

  lemma FormatLiteral(f: Fields, p: string, i: nat, rest: string)
    requires OfDate(f) && i < |p| && !IsLetter(p[i]) && Format(f, p, i + 1) == Some(rest)
    ensures Format(f, p, i) == Some([p[i]] + rest)
  {
  }

  lemma FormatEnd(f: Fields, p: string)
    requires OfDate(f)
    ensures Format(f, p, |p|) == Some("")
  {
  }

  lemma {:induction false} RunLength(p: string, i: nat, run: nat)
    requires i + run <= |p| && 1 <= run
    requires forall j :: i <= j < i + run ==> p[j] == p[i]
    requires i + run < |p| ==> p[i + run] != p[i]
    ensures RunAt(p, i) == run
    decreases run
  {
    if run > 1 {
      RunLength(p, i + 1, run - 1);
    }
  }

  // ----- the patterns in use -----

  // The parts of the patterns: a date at the head of p, a time of day from i on.
  lemma DateSeparated(p: string)
    requires |p| >= 10 && p[..10] == "yyyy-MM-dd" && (|p| > 10 ==> p[10] == ' ')
    ensures Separated(p, 0, 4) && Separated(p, 5, 2) && Separated(p, 8, 2)
    ensures p[0] == 'y' && p[5] == 'M' && p[8] == 'd' && p[4] == '-' && p[7] == '-'
  {
    assert forall j :: 0 <= j < 10 ==> p[j] == p[..10][j];
  }

  lemma TimeSeparated(p: string, i: nat)
    requires i + 8 <= |p| && p[i..i + 8] == "HH:mm:ss" && (|p| > i + 8 ==> p[i + 8] == '.')
    ensures Separated(p, i, 2) && Separated(p, i + 3, 2) && Separated(p, i + 6, 2)
    ensures p[i] == 'H' && p[i + 3] == 'm' && p[i + 6] == 's' && p[i + 2] == ':' && p[i + 5] == ':'
  {
    assert forall j :: i <= j < i + 8 ==> p[j] == p[i..i + 8][j - i];
  }

  lemma MillisSeparated(p: string, i: nat)
    requires i + 3 == |p| && p[i..] == "SSS"
    ensures Separated(p, i, 3) && p[i] == 'S'
  {
    assert forall j :: i <= j < i + 3 ==> p[j] == p[i..][j - i];
  }

  /** The day pattern prints year, month from 1 and day with four, two and two digits. */
  lemma DayText(f: Fields)
    requires OfDate(f)
    ensures Format(f, DAY_PATTERN, 0)
            == Some(Pad(f['y'], 4) + ("-" + (Pad(f['M'] + 1, 2) + ("-" + (Pad(f['d'], 2) + "")))))
  {
    hide Pad, Format, Separated;
    var p := DAY_PATTERN;
    DateSeparated(p);
    FormatSeparated(f, p, 8, 2, "");
    FormatSeparated(f, p, 5, 2, Pad(f['d'], 2) + "");
    FormatSeparated(f, p, 0, 4, Pad(f['M'] + 1, 2) + ("-" + (Pad(f['d'], 2) + "")));
  }

  /** The date-time pattern adds hour, minute and second; this is the time in the text of a parsed UID. */
  lemma DateTimeText(f: Fields)
    requires OfDate(f)
    ensures Format(f, DATETIME_PATTERN, 0)
            == Some(Pad(f['y'], 4) + ("-" + (Pad(f['M'] + 1, 2) + ("-" + (Pad(f['d'], 2) + (" "
               + (Pad(f['H'], 2) + (":" + (Pad(f['m'], 2) + (":" + (Pad(f['s'], 2) + "")))))))))))
  {
    hide Pad, Format, Separated;
    var p := DATETIME_PATTERN;
    DateSeparated(p);
    TimeSeparated(p, 11);
    FormatSeparated(f, p, 17, 2, "");
    var second := Pad(f['s'], 2) + "";
    FormatSeparated(f, p, 14, 2, second);
    var minute := Pad(f['m'], 2) + (":" + second);
    FormatSeparated(f, p, 11, 2, minute);
    var hour := Pad(f['H'], 2) + (":" + minute);
    FormatSeparated(f, p, 8, 2, hour);
    var day := Pad(f['d'], 2) + (" " + hour);
    FormatSeparated(f, p, 5, 2, day);
    FormatSeparated(f, p, 0, 4, Pad(f['M'] + 1, 2) + ("-" + day));
  }

  /** The day pattern, with which epochs are set: year, month and day come back, and the time of day is midnight. */
  lemma DayRoundTrip(f: Fields)
    requires OfDate(f) && TenDigits(f, "yMd")
    ensures Format(f, DAY_PATTERN, 0).Some?
    ensures Parse(Format(f, DAY_PATTERN, 0).value, 0, DAY_PATTERN, 0, EPOCH)
            == Parsed(map['y' := f['y'], 'M' := f['M'], 'd' := f['d'], 'H' := 0, 'm' := 0, 's' := 0, 'S' := 0])
  {
    hide Parse, Format, Pow10, Shown, Separated, Carries, Recovered;
    var p := DAY_PATTERN;
    DateSeparated(p);
    CarriesSeparated(f, p, 8, 2);
    CarriesSeparated(f, p, 5, 2);
    CarriesSeparated(f, p, 0, 4);
    RoundTrip(f, p);
    DayRecovered(f, p);
  }

  lemma DayRecovered(f: Fields, p: string)
    requires OfDate(f) && p == DAY_PATTERN
    ensures Recovered(f, p, EPOCH)
            == map['y' := f['y'], 'M' := f['M'], 'd' := f['d'], 'H' := 0, 'm' := 0, 's' := 0, 'S' := 0]
  {
    assert p[0] == 'y' && p[5] == 'M' && p[8] == 'd';
  }

  /** A time of day on its own falls on the first of January 1970. */
  lemma TimeRoundTrip(f: Fields)
    requires OfDate(f) && TenDigits(f, "HmsS")
    ensures Format(f, TIME_PATTERN, 0).Some?
    ensures Parse(Format(f, TIME_PATTERN, 0).value, 0, TIME_PATTERN, 0, EPOCH)
            == Parsed(map['y' := 1970, 'M' := 0, 'd' := 1,
                          'H' := f['H'], 'm' := f['m'], 's' := f['s'], 'S' := f['S']])
  {
    hide Parse, Format, Pow10, Shown, Separated, Carries, Recovered;
    var p := TIME_PATTERN;
    TimeSeparated(p, 0);
    MillisSeparated(p, 9);
    CarriesSeparated(f, p, 9, 3);
    CarriesSeparated(f, p, 6, 2);
    CarriesSeparated(f, p, 3, 2);
    CarriesSeparated(f, p, 0, 2);
    RoundTrip(f, p);
    TimeRecovered(f, p);
  }

  lemma TimeRecovered(f: Fields, p: string)
    requires OfDate(f) && p == TIME_PATTERN
    ensures Recovered(f, p, EPOCH)
            == map['y' := 1970, 'M' := 0, 'd' := 1, 'H' := f['H'], 'm' := f['m'], 's' := f['s'], 'S' := f['S']]
  {
    assert p[0] == 'H' && p[3] == 'm' && p[6] == 's' && p[9] == 'S';
  }

  /** The date-time pattern with milliseconds carries every date; printing, then parsing gives all seven fields back. */
  lemma DateTimeRoundTrip(f: Fields)
    requires OfDate(f) && TenDigits(f, "yMdHmsS")
    ensures Format(f, DATETIME_MS_PATTERN, 0).Some?
    ensures Parse(Format(f, DATETIME_MS_PATTERN, 0).value, 0, DATETIME_MS_PATTERN, 0, EPOCH) == Parsed(f)
  {
    hide Parse, Format, Pow10, Shown, Separated, Carries, Recovered;
    var p := DATETIME_MS_PATTERN;
    DateSeparated(p);
    TimeSeparated(p, 11);
    MillisSeparated(p, 20);
    CarriesSeparated(f, p, 20, 3);
    CarriesSeparated(f, p, 17, 2);
    CarriesSeparated(f, p, 14, 2);
    CarriesSeparated(f, p, 11, 2);
    CarriesSeparated(f, p, 8, 2);
    CarriesSeparated(f, p, 5, 2);
    CarriesSeparated(f, p, 0, 4);
    RoundTrip(f, p);
    AllLetters(f, p);
  }

  lemma AllLetters(f: Fields, p: string)
    requires OfDate(f) && p == DATETIME_MS_PATTERN
    ensures Recovered(f, p, EPOCH) == f
  {
    assert p[0] == 'y' && p[5] == 'M' && p[8] == 'd' && p[11] == 'H' && p[14] == 'm' && p[17] == 's' && p[20] == 'S';
    forall c | Supported(c) ensures c in p {
    }
  }

  // ----- the loops -----

  // formatPattern: the result is None where the loop throws.
  method FormatPattern(f: Fields, pattern: string) returns (r: Option<string>)
    requires OfDate(f)
    ensures r == Format(f, pattern, 0)
  {
    var out := "";
    var index := 0;
    PrependTwice("", "", Format(f, pattern, 0));
    while index < |pattern|
      invariant 0 <= index <= |pattern|
      invariant Format(f, pattern, 0) == Prepend(out, Format(f, pattern, index))
    {
      var letter := pattern[index];
      if !IsLetter(letter) {
        PrependTwice(out, [letter], Format(f, pattern, index + 1));
        out := out + [letter];
        index := index + 1;
      } else {
        var run := CountRun(pattern, index);
        var text := FieldText(f, letter, run);
        if text == None {
          return None;
        }
        PrependTwice(out, text.value, Format(f, pattern, index + run));
        out := out + text.value;
        index := index + run;
      }
    }
    PrependTwice(out, "", None);
    r := Some(out);
  }

  // The inner loop both share: the length of the run at index.
  method CountRun(pattern: string, index: nat) returns (run: nat)
    requires index < |pattern|
    ensures run == RunAt(pattern, index)
  {
    run := 0;
    while index + run < |pattern| && pattern[index + run] == pattern[index]
      invariant index + run <= |pattern|
      invariant run > 0 ==> pattern[index + run - 1] == pattern[index]
      invariant run > 0 ==> RunAt(pattern, index) == run - 1 + RunAt(pattern, index + run - 1)
    {
      run := run + 1;
    }
  }

  // parsePattern, up to the record it hands to the Date constructor.
  method ParsePattern(text: string, pattern: string) returns (r: ParseResult)
    ensures r == Parse(text, 0, pattern, 0, EPOCH)
  {
    r := ParseInto(text, pattern, EPOCH);
  }

  method ParseInto(text: string, pattern: string, start: Fields) returns (r: ParseResult)
    ensures r == Parse(text, 0, pattern, 0, start)
  {
    hide RunAt, DigitRun, NumberOf, Updated, Supported;
    var fields := start;
    var cursor, index := 0, 0;
    ghost var goal := Parse(text, 0, pattern, 0, start);
    while index < |pattern|
      invariant 0 <= index <= |pattern| && 0 <= cursor <= |text|
      invariant Parse(text, cursor, pattern, index, fields) == goal
    {
      var letter := pattern[index];
      if !IsLetter(letter) {
        if cursor >= |text| || text[cursor] != letter {
          return Mismatch;
        }
        cursor := cursor + 1;
        index := index + 1;
      } else {
        var run, digits, value := ReadField(text, cursor, pattern, index, fields);
        if digits == 0 {
          return Mismatch;
        }
        if !Supported(letter) {
          return Unsupported;
        }
        fields := Updated(fields, letter, value);
        index, cursor := index + run, cursor + digits;
      }
    }
    r := if cursor != |text| then Mismatch else Parsed(fields);
  }

  // One numeric field: the length of its run, the digits it consumes and their value.
  method ReadField(text: string, cursor: nat, pattern: string, index: nat, ghost fields: Fields)
    returns (run: nat, digits: nat, value: int)
    requires cursor <= |text| && index < |pattern| && IsLetter(pattern[index])
    ensures index + run <= |pattern| && run > 0 && cursor + digits <= |text|
    ensures digits == 0 ==> Parse(text, cursor, pattern, index, fields) == Mismatch
    ensures digits > 0 && !Supported(pattern[index]) ==> Parse(text, cursor, pattern, index, fields) == Unsupported
    ensures digits > 0 && Supported(pattern[index]) ==>
      Parse(text, cursor, pattern, index, fields)
      == Parse(text, cursor + digits, pattern, index + run, Updated(fields, pattern[index], value))
  {
    hide NumberOf, Updated;
    run := CountRun(pattern, index);
    var next := index + run;
    var width := if next < |pattern| && IsLetter(pattern[next]) then run else 10;
    digits := ReadDigits(text, cursor, width);
    value := NumberOf(text[cursor..cursor + digits]);
    ParseField(text, cursor, pattern, index, fields, run, digits, value);
  }

  // readDigits: how many digits are consumed.
  method ReadDigits(text: string, cursor: nat, max: nat) returns (k: nat)
    requires cursor <= |text|
    ensures k == DigitRun(text, cursor, max)
  {
    k := 0;
    while cursor + k < |text| && k < max && IsDigit(text[cursor + k])
      invariant k <= max && cursor + k <= |text|
      invariant DigitRun(text, cursor, max) == k + DigitRun(text, cursor + k, max - k)
    {
      k := k + 1;
    }
  }
}
