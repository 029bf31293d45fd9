/**
 Reading one report: pairing the OCR strings with the four column labels,
 deciding which strings are numbers, and listing the OCR errors.
 */
module Validation {
  import opened Text
  import opened Calendar
  import opened Selection

  /** The four quantities a daily report image carries, in the order OCR returns them. */
  datatype Label = Hospitalized | Quarantined | Supervised | Recovered

  const Labels: seq<Label> := [Hospitalized, Quarantined, Supervised, Recovered]

  /** Position of a label in `Labels`. */
  function LabelIndex(l: Label): (i: nat)
    ensures i < |Labels| && Labels[i] == l
  {
    match l
    case Hospitalized => 0
    case Quarantined => 1
    case Supervised => 2
    case Recovered => 3
  }

  /** The column name the script uses for a label in the report table and in correction lines. */
  function LabelName(l: Label): string
  {
    match l
    case Hospitalized => "hospitalized"
    case Quarantined => "quarantined"
    case Supervised => "supervised"
    case Recovered => "recovered"
  }

  /** A table cell: missing (NaN), an integer, or a raw string kept as read. */
  datatype Cell = Empty | Num(n: nat) | Raw(s: string)

  /** A numeric OCR string is stored as its integer value; anything else is stored raw. */
  function Classify(s: string): (c: Cell)
    ensures c.Num? <==> IsNumeric(s)
    ensures c.Raw? <==> !IsNumeric(s)
    ensures c.Raw? ==> c.s == s
    ensures c.Num? ==> AllDigits(s) && c.n == DigitsValue(s)
  {
    if IsNumeric(s) then Num(DigitsValue(s)) else Raw(s)
  }

  /**
   A number rendered in decimal, after any number of leading zeros, is
   classified back as that very number.
   */
  lemma ClassifyShowNat(zeros: nat, n: nat)
    ensures Classify(Zeros(zeros) + ShowNat(n)) == Num(n)
  {
    ShowNatRoundTrip(n);
    LeadingZerosValue(zeros, ShowNat(n));
  }

  /** One row of the report table after OCR: the tweet time and the four cells. */
  datatype Capture = Capture(time: DateTime, hospitalized: Cell, quarantined: Cell, supervised: Cell, recovered: Cell)

  function CellOf(c: Capture, l: Label): Cell
  {
    match l
    case Hospitalized => c.hospitalized
    case Quarantined => c.quarantined
    case Supervised => c.supervised
    case Recovered => c.recovered
  }

  /** Some cell of the row holds a raw string, i.e. OCR misread one of the four numbers. */
  predicate HasRawCell(c: Capture)
  {
    c.hospitalized.Raw? || c.quarantined.Raw? || c.supervised.Raw? || c.recovered.Raw?
  }

  /**
   The report row for tweet `t`: the i-th OCR string goes to the i-th label.
   OCR strings past the fourth are ignored; fewer than four is an error in the
   script (an index out of range), hence the precondition.
   */
  function CaptureOf(t: Tweet, numbers: seq<string>): Capture
    requires |numbers| >= |Labels|
  {
    Capture(t.time, Classify(numbers[0]), Classify(numbers[1]), Classify(numbers[2]), Classify(numbers[3]))
  }

  /**
   The row pairs the i-th OCR string with the i-th label: a numeric string
   becomes its integer value, any other string is kept raw, and no cell is left empty.
   */
  lemma CaptureOfPairsByPosition(t: Tweet, numbers: seq<string>)
    requires |numbers| >= |Labels|
    ensures CaptureOf(t, numbers).time == t.time
    ensures forall i :: 0 <= i < |Labels| ==> CellOf(CaptureOf(t, numbers), Labels[i]) == Classify(numbers[i])
    ensures forall l :: CellOf(CaptureOf(t, numbers), l).Num? <==> IsNumeric(numbers[LabelIndex(l)])
    ensures forall l :: CellOf(CaptureOf(t, numbers), l).Raw? <==> !IsNumeric(numbers[LabelIndex(l)])
  {
  }

  /** An OCR string that is not a number, with the tweet time and the label it was read for. */
  datatype OcrError = OcrError(time: DateTime, quantity: Label, value: string)

  /** The errors for the first `i` labels, in label order. */
  function ErrorsUpTo(t: Tweet, numbers: seq<string>, i: nat): seq<OcrError>
    requires |numbers| >= |Labels|
    requires i <= |Labels|
  {
    if i == 0 then []
    else
      var earlier := ErrorsUpTo(t, numbers, i - 1);
      if IsNumeric(numbers[i - 1]) then earlier else earlier + [OcrError(t.time, Labels[i - 1], numbers[i - 1])]
  }

  /** Every error listed for the first `i` labels is a non-numeric string among them, with its tweet time and label. */
  lemma {:induction false} ErrorsUpToSound(t: Tweet, numbers: seq<string>, i: nat)
    requires |numbers| >= |Labels|
    requires i <= |Labels|
    ensures forall e :: e in ErrorsUpTo(t, numbers, i) ==>
              e.time == t.time && LabelIndex(e.quantity) < i && !IsNumeric(numbers[LabelIndex(e.quantity)]) && e.value == numbers[LabelIndex(e.quantity)]
  {
    if i > 0 {
      ErrorsUpToSound(t, numbers, i - 1);
    }
  }

  /** Every non-numeric string among the first `i` is listed as an error. */
  lemma {:induction false} ErrorsUpToComplete(t: Tweet, numbers: seq<string>, i: nat)
    requires |numbers| >= |Labels|
    requires i <= |Labels|
    ensures forall j :: 0 <= j < i && !IsNumeric(numbers[j]) ==> OcrError(t.time, Labels[j], numbers[j]) in ErrorsUpTo(t, numbers, i)
  {
    if i > 0 {
      ErrorsUpToComplete(t, numbers, i - 1);
    }
  }

  /** The errors for the first `i` labels come in label order. */
  lemma {:induction false} ErrorsUpToOrdered(t: Tweet, numbers: seq<string>, i: nat)
    requires |numbers| >= |Labels|
    requires i <= |Labels|
    ensures forall a, b :: 0 <= a < b < |ErrorsUpTo(t, numbers, i)| ==>
              LabelIndex(ErrorsUpTo(t, numbers, i)[a].quantity) < LabelIndex(ErrorsUpTo(t, numbers, i)[b].quantity)
  {
    if i > 0 {
      ErrorsUpToOrdered(t, numbers, i - 1);
      ErrorsUpToSound(t, numbers, i - 1);
    }
  }

  /** The OCR errors of one report, in label order. */
  function ErrorsOf(t: Tweet, numbers: seq<string>): seq<OcrError>
    requires |numbers| >= |Labels|
  {
    ErrorsUpTo(t, numbers, |Labels|)
  }

  /**
   A report's errors are exactly one per label whose cell is raw, in label
   order, each carrying the raw string that was stored; there is an error
   exactly when the row has a raw cell.
   */
  lemma ErrorsOfSpec(t: Tweet, numbers: seq<string>)
    requires |numbers| >= |Labels|
    ensures var errs := ErrorsOf(t, numbers);
      && (forall e :: e in errs ==> e.time == t.time && CellOf(CaptureOf(t, numbers), e.quantity) == Raw(e.value))
      && (forall l :: CellOf(CaptureOf(t, numbers), l).Raw? ==> OcrError(t.time, l, CellOf(CaptureOf(t, numbers), l).s) in errs)
      && (forall a, b :: 0 <= a < b < |errs| ==> LabelIndex(errs[a].quantity) < LabelIndex(errs[b].quantity))
      && (|errs| > 0 <==> HasRawCell(CaptureOf(t, numbers)))
  {
    var errs := ErrorsOf(t, numbers);
    ErrorsUpToSound(t, numbers, |Labels|);
    ErrorsUpToComplete(t, numbers, |Labels|);
    ErrorsUpToOrdered(t, numbers, |Labels|);
    CaptureOfPairsByPosition(t, numbers);
    assert |errs| > 0 ==> errs[0] in errs;
  }

  /** A report has an OCR error exactly when its row has a raw cell. */
  lemma ErrorsOfNonEmpty(t: Tweet, numbers: seq<string>)
    requires |numbers| >= |Labels|
    ensures |ErrorsOf(t, numbers)| > 0 <==> HasRawCell(CaptureOf(t, numbers))
  {
    ErrorsOfSpec(t, numbers);
  }
}
