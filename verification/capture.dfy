/**
 The pass over the report table: each report's image is read by the OCR
 routine its timestamp selects, its four strings are classified, the error
 flag is raised on the first non-numeric string, and the correction lines
 not already known are appended.
 */
module CaptureLoop {
  import opened Text
  import opened Selection
  import opened Validation
  import opened CorrectionFile

  /** Every report's OCR result has at least one string per label. */
  predicate ReadsAllLabels(reports: seq<Tweet>, newOcr: Tweet -> seq<string>, oldOcr: Tweet -> seq<string>)
  {
    forall k :: 0 <= k < |reports| ==> |OcrNumbers(reports[k], newOcr, oldOcr)| >= |Labels|
  }

  /** The OCR errors of the first `n` reports, report by report. */
  function ErrorsBefore(reports: seq<Tweet>, n: nat, newOcr: Tweet -> seq<string>, oldOcr: Tweet -> seq<string>): seq<OcrError>
    requires ReadsAllLabels(reports, newOcr, oldOcr)
    requires n <= |reports|
  {
    if n == 0 then []
    else ErrorsBefore(reports, n - 1, newOcr, oldOcr) + ErrorsOf(reports[n - 1], OcrNumbers(reports[n - 1], newOcr, oldOcr))
  }

  /** The OCR errors of all reports. */
  function AllErrors(reports: seq<Tweet>, newOcr: Tweet -> seq<string>, oldOcr: Tweet -> seq<string>): seq<OcrError>
    requires ReadsAllLabels(reports, newOcr, oldOcr)
  {
    ErrorsBefore(reports, |reports|, newOcr, oldOcr)
  }

  /** Among the first `n` reports there is an OCR error exactly when one of their rows has a raw cell. */
  lemma {:induction false} ErrorsBeforeIffRawCell(reports: seq<Tweet>, n: nat, newOcr: Tweet -> seq<string>, oldOcr: Tweet -> seq<string>)
    requires ReadsAllLabels(reports, newOcr, oldOcr)
    requires n <= |reports|
    ensures |ErrorsBefore(reports, n, newOcr, oldOcr)| > 0 <==>
            exists k :: 0 <= k < n && HasRawCell(CaptureOf(reports[k], OcrNumbers(reports[k], newOcr, oldOcr)))
  {
    if n > 0 {
      var numbers := OcrNumbers(reports[n - 1], newOcr, oldOcr);
      ErrorsBeforeIffRawCell(reports, n - 1, newOcr, oldOcr);
      ErrorsOfNonEmpty(reports[n - 1], numbers);
      if HasRawCell(CaptureOf(reports[n - 1], numbers)) {
        assert |ErrorsOf(reports[n - 1], numbers)| > 0;
      }
    }
  }

  /** The error flag of the loop is raised exactly when some row of the report table has a raw cell. */
  lemma RawCellIffErrors(reports: seq<Tweet>, captures: seq<Capture>, newOcr: Tweet -> seq<string>, oldOcr: Tweet -> seq<string>)
    requires ReadsAllLabels(reports, newOcr, oldOcr)
    requires |captures| == |reports|
    requires forall k :: 0 <= k < |reports| ==> captures[k] == CaptureOf(reports[k], OcrNumbers(reports[k], newOcr, oldOcr))
    ensures |AllErrors(reports, newOcr, oldOcr)| > 0 <==> exists k :: 0 <= k < |captures| && HasRawCell(captures[k])
  {
    ErrorsBeforeIffRawCell(reports, |reports|, newOcr, oldOcr);
  }

  /**
   Appending the correction lines of the errors met, in order: each line is
   written unless it already occurs in the contents read at start-up.
   */
  method AppendCorrections(known: string, errors: seq<OcrError>) returns (appended: string)
    ensures appended == Corrections(known, errors)
  {
    appended := "";
    var i := 0;
    while i < |errors|
      invariant 0 <= i <= |errors|
      invariant appended == AppendedBy(known, errors[..i])
    {
      var e := errors[i];
      if !Logged(known, e) {
        appended := appended + Entry(e);
      }
      assert errors[..i + 1][..i] == errors[..i];
      i := i + 1;
    }
    assert errors[..i] == errors;
    AppendedByIsCorrections(known, errors);
  }

  /**
   The inner loop for one report: each of the four strings that is not a
   number raises the error flag and is recorded as an error.
   */
  method CheckReport(t: Tweet, numbers: seq<string>, errors0: seq<OcrError>, errFlag0: int)
    returns (errors: seq<OcrError>, errFlag: int)
    requires |numbers| >= |Labels|
    requires errFlag0 == (if |errors0| > 0 then 1 else 0)
    ensures errors == errors0 + ErrorsOf(t, numbers)
    ensures errFlag == (if |errors| > 0 then 1 else 0)
    ensures errFlag0 == 1 ==> errFlag == 1
  {
    errors, errFlag := errors0, errFlag0;
    var i := 0;
    while i < |Labels|
      invariant 0 <= i <= |Labels|
      invariant errors == errors0 + ErrorsUpTo(t, numbers, i)
      invariant errFlag == (if |errors| > 0 then 1 else 0)
    {
      if !IsNumeric(numbers[i]) {
        errFlag := 1;
        var e := OcrError(t.time, Labels[i], numbers[i]);
        errors := errors + [e];
      }
      i := i + 1;
    }
    assert errors == errors0 + ErrorsOf(t, numbers);
  }

  /**
   The script's loop over the report table. Returns the report rows, the OCR
   errors met (in order) and the error flag. The text this loop appends to
   the correction file depends only on the errors met and on the contents
   read at start-up, so it is computed from `errors` by `AppendCorrections`.
   */
  method CaptureReports(reports: seq<Tweet>, newOcr: Tweet -> seq<string>, oldOcr: Tweet -> seq<string>)
    returns (captures: seq<Capture>, errors: seq<OcrError>, errFlag: int)
    requires ReadsAllLabels(reports, newOcr, oldOcr)
    ensures |captures| == |reports|
    ensures forall k :: 0 <= k < |reports| ==> captures[k] == CaptureOf(reports[k], OcrNumbers(reports[k], newOcr, oldOcr))
    ensures errors == AllErrors(reports, newOcr, oldOcr)
    ensures errFlag == 0 || errFlag == 1
    ensures errFlag == 1 <==> exists k :: 0 <= k < |captures| && HasRawCell(captures[k])
  {
    captures, errors, errFlag := [], [], 0;
    var k := 0;
    while k < |reports|
      invariant 0 <= k <= |reports|
      invariant |captures| == k
      invariant forall j :: 0 <= j < k ==> captures[j] == CaptureOf(reports[j], OcrNumbers(reports[j], newOcr, oldOcr))
      invariant errors == ErrorsBefore(reports, k, newOcr, oldOcr)
      invariant errFlag == (if |errors| > 0 then 1 else 0)
    {
      var t := reports[k];
      var numbers := OcrNumbers(t, newOcr, oldOcr);
      captures := captures + [CaptureOf(t, numbers)];
      errors, errFlag := CheckReport(t, numbers, errors, errFlag);
      k := k + 1;
    }
    RawCellIffErrors(reports, captures, newOcr, oldOcr);
  }
}
