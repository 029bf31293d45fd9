/**
 The OCR error-correction file. At start-up the script makes sure the file
 ends with a newline (writing the header when the file is new or empty) and
 remembers the contents it read; during the run it appends one correction
 line per OCR error, unless that line already occurs in the remembered
 contents (as an open error, or followed by the value it was corrected to).
 */
module CorrectionFile {
  import opened Options
  import opened Text
  import opened Calendar
  import opened Validation
  import opened Seqs

  /** The header row the script writes into a new or empty correction file. */
  const Header: string := "\"Date\",\"Column\",\"is\",\"should be\""

  /** What the file holds before start-up; an absent file holds nothing. */
  function Existing(file: Option<string>): string
  {
    match file
    case None => ""
    case Some(s) => s
  }

  /**
   The text start-up writes. An absent or empty file gets the header line; a
   non-empty file gets a single newline when it does not already end with one,
   and nothing otherwise.
   */
  function StartupText(file: Option<string>): (w: string)
    ensures var after := Existing(file) + w; |after| > 0 && after[|after| - 1] == '\n'
    ensures |Existing(file)| > 0 ==> w == "" || w == "\n"
    ensures |Existing(file)| > 0 ==> (w == "" <==> Existing(file)[|Existing(file)| - 1] == '\n')
    ensures |Existing(file)| == 0 ==> w == Header + "\n"
  {
    match file
    case None => Header + "\n"
    case Some(s) =>
      if |s| == 0 then Header + "\n"
      else if s[|s| - 1] != '\n' then "\n"
      else ""
  }

  /** The line logged for an OCR error: `date,label,value,` with the date as `%m/%d/%Y`. */
  function CorrectionLine(e: OcrError): string
  {
    FormatUS(e.time.date) + "," + LabelName(e.quantity) + "," + e.value + ","
  }

  /** The error's line already occurs in the contents read at start-up. */
  predicate Logged(known: string, e: OcrError)
  {
    Contains(known, CorrectionLine(e))
  }

  /** The test the script applies before appending an error's line. */
  function IsNew(known: string): OcrError -> bool
  {
    e => !Logged(known, e)
  }

  /** The errors whose line is not yet in `known`, in their original order. */
  function NewErrors(known: string, errs: seq<OcrError>): seq<OcrError>
  {
    Filter(errs, IsNew(known))
  }

  /** Which errors are new: exactly those met whose line is not logged yet. */
  lemma NewErrorsSpec(known: string, errs: seq<OcrError>)
    ensures forall e :: e in NewErrors(known, errs) <==> e in errs && !Logged(known, e)
  {
    FilterMembership(errs, IsNew(known));
  }

  /** An error's line as `print` writes it, newline-terminated. */
  function Entry(e: OcrError): string
  {
    CorrectionLine(e) + "\n"
  }

  /** The entries of several errors, one after the other. */
  function Entries(errs: seq<OcrError>): string
  {
    if |errs| == 0 then "" else Entry(errs[0]) + Entries(errs[1..])
  }

  /** Every entry written is found again, line and newline, in the written text. */
  lemma {:induction false} EntriesContain(errs: seq<OcrError>, e: OcrError)
    requires e in errs
    ensures Contains(Entries(errs), Entry(e))
    decreases |errs|
  {
    var head := Entry(errs[0]);
    if errs[0] == e {
      assert head <= Entries(errs);
    } else {
      EntriesContain(errs[1..], e);
      ContainsExtendLeft(head, Entries(errs[1..]), Entry(e));
    }
  }

  lemma {:induction false} EntriesAppend(a: seq<OcrError>, b: seq<OcrError>)
    ensures Entries(a + b) == Entries(a) + Entries(b)
    decreases |a|
  {
    if |a| > 0 {
      assert (a + b)[0] == a[0];
      assert (a + b)[1..] == a[1..] + b;
      EntriesAppend(a[1..], b);
    } else {
      assert a + b == b;
    }
  }

  /** The text one run appends for its OCR errors, given the contents read at start-up. */
  function Corrections(known: string, errs: seq<OcrError>): string
  {
    Entries(NewErrors(known, errs))
  }

  /**
   Meeting one more error appends its entry when its line is not logged yet,
   and nothing when it is.
   */
  lemma CorrectionsStep(known: string, errs: seq<OcrError>, e: OcrError)
    ensures Logged(known, e) ==> Corrections(known, errs + [e]) == Corrections(known, errs)
    ensures !Logged(known, e) ==> Corrections(known, errs + [e]) == Corrections(known, errs) + Entry(e)
  {
    var before := NewErrors(known, errs);
    var step := NewErrors(known, [e]);
    FilterAppend(errs, [e], IsNew(known));
    FilterSingleton(e, IsNew(known));
    EntriesAppend(before, step);
    if Logged(known, e) {
      assert step == [];
      assert before + step == before;
    } else {
      assert step == [e];
      assert Entries(step) == Entry(e) + Entries([]);
    }
  }

  /**
   The text appended error by error, as the script's loop writes it: each
   error's entry follows the earlier ones unless its line is already logged.
   */
  function AppendedBy(known: string, errs: seq<OcrError>): string
  {
    if |errs| == 0 then ""
    else
      var e := errs[|errs| - 1];
      AppendedBy(known, errs[..|errs| - 1]) + (if Logged(known, e) then "" else Entry(e))
  }

  /** Writing error by error yields exactly the entries of the errors not yet logged, in order. */
  lemma {:induction false} AppendedByIsCorrections(known: string, errs: seq<OcrError>)
    ensures AppendedBy(known, errs) == Corrections(known, errs)
    decreases |errs|
  {
    if |errs| > 0 {
      var init, e := errs[..|errs| - 1], errs[|errs| - 1];
      var step := if Logged(known, e) then "" else Entry(e);
      calc {
        AppendedBy(known, errs);
        AppendedBy(known, init) + step;
        { AppendedByIsCorrections(known, init); }
        Corrections(known, init) + step;
        { CorrectionsStep(known, init, e); }
        Corrections(known, init + [e]);
        { SplitLast(errs); }
        Corrections(known, errs);
      }
    }
  }

  /** When every error is already logged, a run appends nothing. */
  lemma {:induction false} NothingNewWhenAllLogged(known: string, errs: seq<OcrError>)
    requires forall e :: e in errs ==> Logged(known, e)
    ensures Corrections(known, errs) == ""
    decreases |errs|
  {
    if |errs| > 0 {
      assert errs[0] in errs;
      assert forall e :: e in errs[1..] ==> e in errs;
      NothingNewWhenAllLogged(known, errs[1..]);
    }
  }

  /** After a run, every error it met is logged in the file it leaves behind. */
  lemma LoggedAfterRun(contents: string, errs: seq<OcrError>, e: OcrError)
    requires e in errs
    ensures Logged(contents + StartupText(Some(contents)) + Corrections(contents, errs), e)
  {
    var written := Corrections(contents, errs);
    if !Logged(contents, e) {
      NewErrorsSpec(contents, errs);
      EntriesContain(NewErrors(contents, errs), e);
      ContainsShorten(written, CorrectionLine(e), "\n");
    }
    ContainsInOuter(contents, StartupText(Some(contents)), written, CorrectionLine(e));
  }

  /**
   Errors already logged are not logged again: if the next run starts from the
   file this run leaves behind and meets the same errors, it appends nothing.
   */
  lemma NoDuplicatesAcrossRuns(contents: string, errs: seq<OcrError>)
    ensures var next := contents + StartupText(Some(contents)) + Corrections(contents, errs);
            Corrections(next, errs) == ""
  {
    var next := contents + StartupText(Some(contents)) + Corrections(contents, errs);
    forall e | e in errs
      ensures Logged(next, e)
    {
      LoggedAfterRun(contents, errs, e);
    }
    NothingNewWhenAllLogged(next, errs);
  }

  /**
   Only the contents read at start-up are consulted, so an error met twice in
   one run (two reports of the same day with the same misread value) is logged twice.
   */
  lemma RepeatWithinRunLoggedTwice(known: string, e: OcrError)
    requires !Logged(known, e)
    ensures Corrections(known, [e, e]) == Entry(e) + Entry(e)
  {
    AppendedByIsCorrections(known, [e, e]);
    assert [e, e][..1] == [e];
    assert [e][..0] == [];
    assert AppendedBy(known, [e]) == Entry(e);
    assert AppendedBy(known, [e, e]) == AppendedBy(known, [e]) + Entry(e);
  }
}
