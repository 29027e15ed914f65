/** The text side of the prescription reader: cleaning the OCR engine's raw
    output, the "nothing found" sentinel, and the composition of file check,
    image preprocessing and OCR in which any failure becomes `None`.
    The image library (decoding, grayscale, denoising, Otsu thresholding,
    dilation) and the OCR engine are parameters: abstract functions that
    either produce a value or fail. */
module PrescriptionDetection {
  import opened Outcomes
  import opened PythonStrings

  const Newline: char := '\n'

  /** What `extract_text_from_image` returns when cleanup leaves nothing. */
  const NoTextMessage: string := "No text could be extracted from the image"

  // ---------------------------------------------------------------------------
  // Cleanup of OCR output
  // ---------------------------------------------------------------------------

  /** The shape cleanup promises: empty, or lines (the pieces between newlines)
      that are each non-empty with no whitespace at either end. */
  ghost predicate IsExtractedText(t: string) {
    var lines := Split(t, Newline);
    t == [] || forall k :: 0 <= k < |lines| ==> lines[k] != [] && Trimmed(lines[k])
  }

  /** Strip every line and keep those that are not empty after stripping. */
  function CleanLines(lines: seq<string>): (r: seq<string>)
    ensures |r| <= |lines|
    ensures forall k :: 0 <= k < |r| ==> r[k] != []
  {
    if lines == [] then []
    else
      var line := Strip(lines[0]);
      var rest := CleanLines(lines[1..]);
      if line != [] then [line] + rest else rest
  }

  /** Every kept line is stripped. */
  lemma {:induction false} CleanLinesTrimmed(lines: seq<string>)
    ensures forall k :: 0 <= k < |CleanLines(lines)| ==> Trimmed(CleanLines(lines)[k])
  {
    if lines != [] {
      CleanLinesTrimmed(lines[1..]);
    }
  }

  /** `clean_extracted_text`: split on newlines, drop the lines that are blank
      once stripped, strip the others, and join them with single newlines. */
  function CleanExtractedText(text: string): (r: string)
    ensures text == [] ==> r == []
    ensures |r| <= |text|
    ensures IsExtractedText(r)
  {
    if text == [] then []
    else
      var lines := Split(text, Newline);
      JoinCleanLinesShorter(lines);
      CleanLinesNoNewline(lines);
      CleanLinesTrimmed(lines);
      JoinedLinesAreExtractedText(CleanLines(lines));
      Join(CleanLines(lines), Newline)
  }

  /** Stripping cannot bring a newline into a line that had none. */
  lemma {:induction false} CleanLinesNoNewline(lines: seq<string>)
    requires forall k :: 0 <= k < |lines| ==> Newline !in lines[k]
    ensures forall k :: 0 <= k < |CleanLines(lines)| ==> Newline !in CleanLines(lines)[k]
  {
    if lines != [] {
      var rest := lines[1..];
      assert forall k :: 0 <= k < |rest| ==> rest[k] == lines[k + 1];
      CleanLinesNoNewline(rest);
      if Newline in Strip(lines[0]) {
        StripKeepsCharacters(lines[0], Newline);
      }
    }
  }

  /** Dropping and stripping lines never makes the joined text longer. */
  lemma {:induction false} JoinCleanLinesShorter(lines: seq<string>)
    ensures |Join(CleanLines(lines), Newline)| <= |Join(lines, Newline)|
  {
    if lines != [] {
      var rest := lines[1..];
      JoinCleanLinesShorter(rest);
      var line := Strip(lines[0]);
      assert |line| <= |lines[0]| by {
        StripIsCore(lines[0]);
        var i :| CoreAt(lines[0], line, i);
      }
      if line != [] && CleanLines(rest) != [] {
        assert ([line] + CleanLines(rest))[1..] == CleanLines(rest);
      }
    }
  }

  /** Joining non-empty, trimmed, newline-free lines gives text of the promised
      shape, whose lines are exactly those joined. */
  lemma JoinedLinesAreExtractedText(parts: seq<string>)
    requires forall k :: 0 <= k < |parts| ==> parts[k] != [] && Trimmed(parts[k]) && Newline !in parts[k]
    ensures parts != [] ==> Split(Join(parts, Newline), Newline) == parts
    ensures IsExtractedText(Join(parts, Newline))
  {
    if parts != [] {
      SplitJoin(parts, Newline);
    }
  }

  /** No line of cleaned text is blank, so cleanup leaves each of them in place. */
  lemma {:induction false} CleanLinesOfCleanLines(lines: seq<string>)
    requires forall k :: 0 <= k < |lines| ==> lines[k] != [] && Trimmed(lines[k])
    ensures CleanLines(lines) == lines
  {
    if lines != [] {
      StripTrimmed(lines[0]);
      assert forall k :: 1 <= k < |lines| ==> lines[1..][k - 1] == lines[k];
      CleanLinesOfCleanLines(lines[1..]);
      assert [lines[0]] + lines[1..] == lines;
    }
  }

  /** The texts cleanup leaves unchanged are exactly those of the promised shape. */
  lemma CleanFixedPoint(t: string)
    ensures CleanExtractedText(t) == t <==> IsExtractedText(t)
  {
    if t != [] && IsExtractedText(t) {
      CleanLinesOfCleanLines(Split(t, Newline));
    }
  }

  /** Cleaning already-cleaned text returns it unchanged. */
  lemma CleanIdempotent(text: string)
    ensures CleanExtractedText(CleanExtractedText(text)) == CleanExtractedText(text)
  {
    CleanFixedPoint(CleanExtractedText(text));
  }

  // The order argument is made on plain strings first, where the only test is
  // emptiness, and then carried over to the stripped lines.

  /** The non-empty strings of `xs`, in order. */
  function NonEmpty(xs: seq<string>): (r: seq<string>)
  {
    if xs == [] then []
    else if xs[0] != [] then [xs[0]] + NonEmpty(xs[1..])
    else NonEmpty(xs[1..])
  }

  /** Each line stripped. */
  function StripEach(lines: seq<string>): (r: seq<string>)
    ensures |r| == |lines| && forall k :: 0 <= k < |lines| ==> r[k] == Strip(lines[k])
  {
    if lines == [] then [] else [Strip(lines[0])] + StripEach(lines[1..])
  }

  lemma {:induction false} CleanLinesIsNonEmptyOfStripped(lines: seq<string>)
    ensures CleanLines(lines) == NonEmpty(StripEach(lines))
  {
    if lines != [] {
      CleanLinesIsNonEmptyOfStripped(lines[1..]);
      assert StripEach(lines)[1..] == StripEach(lines[1..]);
    }
  }

  function Shift(xs: seq<int>): (r: seq<int>)
    ensures |r| == |xs| && forall i :: 0 <= i < |xs| ==> r[i] == xs[i] + 1
  {
    if xs == [] then [] else [xs[0] + 1] + Shift(xs[1..])
  }

  predicate Increasing(s: seq<int>) {
    forall k, m :: 0 <= k < m < |s| ==> s[k] < s[m]
  }

  /** Each `out[k]` is `xs[idx[k]]`. */
  predicate TakenFrom(out: seq<string>, xs: seq<string>, idx: seq<int>) {
    |idx| == |out| && forall k :: 0 <= k < |idx| ==> 0 <= idx[k] < |xs| && out[k] == xs[idx[k]]
  }

  /** Each non-empty `xs[j]` was taken, into place `pos[j]`. */
  predicate NonEmptyTaken(xs: seq<string>, idx: seq<int>, pos: seq<int>) {
    |pos| == |xs| && forall j :: 0 <= j < |xs| && xs[j] != [] ==> 0 <= pos[j] < |idx| && idx[pos[j]] == j
  }

  lemma StepTakenFrom(xs: seq<string>, tail: seq<int>, idx: seq<int>)
    requires xs != [] && TakenFrom(NonEmpty(xs[1..]), xs[1..], tail)
    requires idx == if xs[0] != [] then [0] + Shift(tail) else Shift(tail)
    ensures TakenFrom(NonEmpty(xs), xs, idx)
  {
    var r, cr, rest := NonEmpty(xs), NonEmpty(xs[1..]), xs[1..];
    forall k | 0 <= k < |idx| ensures 0 <= idx[k] < |xs| && r[k] == xs[idx[k]] {
      if xs[0] != [] && k > 0 {
        assert r[k] == cr[k - 1] && idx[k] == tail[k - 1] + 1;
        assert xs[idx[k]] == rest[tail[k - 1]];
      } else if xs[0] == [] {
        assert r[k] == cr[k] && idx[k] == tail[k] + 1;
        assert xs[idx[k]] == rest[tail[k]];
      }
    }
  }

  /** Moving increasing non-negative indices up by one keeps them increasing
      and makes them all positive. */
  lemma ShiftIncreasing(tail: seq<int>)
    requires Increasing(tail) && forall k :: 0 <= k < |tail| ==> 0 <= tail[k]
    ensures Increasing(Shift(tail)) && forall k :: 0 <= k < |tail| ==> 1 <= Shift(tail)[k]
  {
    var shifted := Shift(tail);
    forall k, m | 0 <= k < m < |shifted| ensures shifted[k] < shifted[m] {
      assert shifted[k] == tail[k] + 1 && shifted[m] == tail[m] + 1;
    }
  }

  lemma StepIncreasing(tail: seq<int>, idx: seq<int>, kept: bool)
    requires Increasing(tail) && forall k :: 0 <= k < |tail| ==> 0 <= tail[k]
    requires idx == if kept then [0] + Shift(tail) else Shift(tail)
    ensures Increasing(idx)
  {
    var shifted := Shift(tail);
    ShiftIncreasing(tail);
    if kept {
      assert idx[0] == 0 && idx[1..] == shifted;
      forall k, m | 0 <= k < m < |idx| ensures idx[k] < idx[m] {
        assert idx[m] == shifted[m - 1];
        if k > 0 {
          assert idx[k] == shifted[k - 1];
        }
      }
    } else {
      assert idx == shifted;
    }
  }

  lemma StepNonEmptyTaken(xs: seq<string>, tail: seq<int>, tailPos: seq<int>, idx: seq<int>, pos: seq<int>)
    requires xs != [] && NonEmptyTaken(xs[1..], tail, tailPos)
    requires idx == if xs[0] != [] then [0] + Shift(tail) else Shift(tail)
    requires pos == if xs[0] != [] then [0] + Shift(tailPos) else [-1] + tailPos
    ensures NonEmptyTaken(xs, idx, pos)
  {
    var rest := xs[1..];
    forall j | 0 <= j < |xs| && xs[j] != [] ensures 0 <= pos[j] < |idx| && idx[pos[j]] == j {
      if j > 0 {
        assert rest[j - 1] == xs[j];
        var p := tailPos[j - 1];
        assert 0 <= p < |tail| && tail[p] == j - 1;
        if xs[0] != [] {
          assert pos[j] == p + 1 && idx[p + 1] == tail[p] + 1;
        } else {
          assert pos[j] == p && idx[p] == tail[p] + 1;
        }
      }
    }
  }

  /** `idx` lists, increasing, where each kept string comes from; `pos` says,
      for each non-empty input string, where it went. */
  lemma {:induction false} NonEmptySelect(xs: seq<string>) returns (idx: seq<int>, pos: seq<int>)
    ensures TakenFrom(NonEmpty(xs), xs, idx) && Increasing(idx) && NonEmptyTaken(xs, idx, pos)
  {
    if xs == [] {
      idx, pos := [], [];
    } else {
      var tail, tailPos := NonEmptySelect(xs[1..]);
      var kept := xs[0] != [];
      idx := if kept then [0] + Shift(tail) else Shift(tail);
      pos := if kept then [0] + Shift(tailPos) else [-1] + tailPos;
      StepTakenFrom(xs, tail, idx);
      StepIncreasing(tail, idx, kept);
      StepNonEmptyTaken(xs, tail, tailPos, idx, pos);
    }
  }

  /** Lines are dropped only when blank, and the survivors keep their order:
      `idx` lists, increasing, the input lines the output lines come from, and
      `pos` gives each non-blank input line its place in the output. */
  lemma CleanLinesSelect(lines: seq<string>) returns (idx: seq<int>, pos: seq<int>)
    ensures |idx| == |CleanLines(lines)| && |pos| == |lines|
    ensures forall k :: 0 <= k < |idx| ==> 0 <= idx[k] < |lines| && CleanLines(lines)[k] == Strip(lines[idx[k]])
    ensures forall k, m :: 0 <= k < m < |idx| ==> idx[k] < idx[m]
    ensures forall j :: 0 <= j < |lines| && Strip(lines[j]) != [] ==> 0 <= pos[j] < |idx| && idx[pos[j]] == j
  {
    CleanLinesIsNonEmptyOfStripped(lines);
    idx, pos := NonEmptySelect(StripEach(lines));
  }

  /** The lines of the cleaned text, in order, are the stripped non-blank lines
      of the input: `idx` says which input line each output line is, and `pos`
      where each non-blank input line went. */
  lemma CleanKeepsNonBlankLinesInOrder(text: string) returns (idx: seq<int>, pos: seq<int>)
    ensures var r := CleanExtractedText(text);
            var output := if r == [] then [] else Split(r, Newline);
            var input := Split(text, Newline);
            && |idx| == |output| && |pos| == |input|
            && (forall k :: 0 <= k < |idx| ==> 0 <= idx[k] < |input| && output[k] == Strip(input[idx[k]]))
            && (forall k, m :: 0 <= k < m < |idx| ==> idx[k] < idx[m])
            && (forall j :: 0 <= j < |input| && Strip(input[j]) != [] ==> 0 <= pos[j] < |idx| && idx[pos[j]] == j)
  {
    var input := Split(text, Newline);
    idx, pos := CleanLinesSelect(input);
    var cleaned := CleanLines(input);
    if text == [] {
      assert input == [[]];
      assert Strip([]) == [];
    } else {
      CleanLinesNoNewline(input);
      CleanLinesTrimmed(input);
      JoinedLinesAreExtractedText(cleaned);
      if cleaned != [] {
        JoinLength(cleaned, Newline);
      }
    }
  }

  lemma JoinLength(parts: seq<string>, sep: char)
    requires parts != []
    ensures |Join(parts, sep)| >= |parts[0]|
  {
  }

  /** A join of whitespace-only pieces with a whitespace separator is
      whitespace only. */
  lemma {:induction false} JoinAllSpace(parts: seq<string>, sep: char)
    requires IsSpace(sep) && forall k :: 0 <= k < |parts| ==> AllSpace(parts[k])
    ensures AllSpace(Join(parts, sep))
  {
    if |parts| > 1 {
      assert forall k :: 1 <= k < |parts| ==> parts[1..][k - 1] == parts[k];
      JoinAllSpace(parts[1..], sep);
      var r := Join(parts, sep);
      var p, q := parts[0], Join(parts[1..], sep);
      assert forall i :: |p| + 1 <= i < |r| ==> r[i] == q[i - |p| - 1];
    }
  }

  /** Cleanup yields nothing exactly when every line is blank. */
  lemma {:induction false} CleanLinesEmpty(lines: seq<string>)
    ensures CleanLines(lines) == [] <==> forall k :: 0 <= k < |lines| ==> AllSpace(lines[k])
  {
    if lines != [] {
      CleanLinesEmpty(lines[1..]);
      assert forall k :: 1 <= k < |lines| ==> lines[1..][k - 1] == lines[k];
    }
  }

  /** Cleanup yields the empty string exactly when the input is whitespace only
      (the empty string included). */
  lemma CleanWhitespaceOnly(text: string)
    ensures CleanExtractedText(text) == [] <==> AllSpace(text)
  {
    var lines := Split(text, Newline);
    var cleaned := CleanLines(lines);
    CleanLinesEmpty(lines);
    if text != [] {
      if cleaned != [] {
        JoinLength(cleaned, Newline);
      }
      if AllSpace(text) {
        forall k | 0 <= k < |lines| ensures AllSpace(lines[k]) {
          forall i | 0 <= i < |lines[k]| ensures IsSpace(lines[k][i]) {
            SplitPiecesFromInput(text, Newline, k, lines[k][i]);
          }
        }
      }
      if cleaned == [] {
        JoinAllSpace(lines, Newline);
      }
    }
  }

  /** What the line shape means for the text as a whole: it neither starts nor
      ends with whitespace (so never with a newline), and every newline sits
      between two non-whitespace characters (so no "\n\n" and no padded line). */
  predicate NoPaddedLines(t: string) {
    && (t == [] || (!IsSpace(t[0]) && !IsSpace(t[|t| - 1])))
    && forall i :: 0 <= i < |t| && t[i] == Newline ==> 0 < i < |t| - 1 && !IsSpace(t[i - 1]) && !IsSpace(t[i + 1])
  }

  lemma {:induction false} JoinShape(parts: seq<string>)
    requires parts != []
    requires forall k :: 0 <= k < |parts| ==> parts[k] != [] && Trimmed(parts[k]) && Newline !in parts[k]
    ensures Join(parts, Newline) != [] && NoPaddedLines(Join(parts, Newline))
  {
    if |parts| > 1 {
      var rest := parts[1..];
      assert forall k :: 1 <= k < |parts| ==> rest[k - 1] == parts[k];
      JoinShape(rest);
      var t, p, q := Join(parts, Newline), parts[0], Join(rest, Newline);
      assert t == p + [Newline] + q;
      forall i | 0 <= i < |t| && t[i] == Newline
        ensures 0 < i < |t| - 1 && !IsSpace(t[i - 1]) && !IsSpace(t[i + 1])
      {
        if i > |p| {
          assert t[i] == q[i - |p| - 1];
          if i > |p| + 1 {
            assert t[i - 1] == q[i - |p| - 2];
          }
          assert t[i + 1] == q[i - |p|];
        }
      }
    }
  }

  /** Cleaned text never starts or ends with a newline, never holds "\n\n",
      and has no whitespace next to any newline. */
  lemma CleanedTextShape(text: string)
    ensures NoPaddedLines(CleanExtractedText(text))
  {
    var t := CleanExtractedText(text);
    if t != [] {
      var parts := Split(t, Newline);
      JoinShape(parts);
    }
  }

  /** Stripping the first example line, one trailing space at a time. */
  lemma StripExampleLine()
    ensures Strip("  Line A  ") == "Line A"
  {
    var line, rest := "  Line A  ", "Line A  ";
    assert line[..2] == "  " && line[2..] == rest;
    StripLeftAt(line, 2);
    assert rest[6..] == "  " && rest[..6] == "Line A";
    StripRightAt(rest, 6);
  }

  lemma SplitExample()
    ensures Split("  Line A  \n\n\tLine B\n   \n", Newline) == ["  Line A  ", "", "\tLine B", "   ", ""]
  {
    var parts := ["  Line A  ", "", "\tLine B", "   ", ""];
    assert Join(parts[3..], Newline) == "   \n";
    assert Join(parts[2..], Newline) == "\tLine B\n   \n";
    assert Join(parts[1..], Newline) == "\n\tLine B\n   \n";
    assert Join(parts, Newline) == "  Line A  \n\n\tLine B\n   \n";
    SplitJoin(parts, Newline);
  }

  lemma CleanLinesExample()
    ensures CleanLines(["  Line A  ", "", "\tLine B", "   ", ""]) == ["Line A", "Line B"]
  {
    StripExampleLine();
    StripTabbedLine();
    StripBlankLine();
  }

  lemma StripTabbedLine()
    ensures Strip("\tLine B") == "Line B"
  {
    var line := "\tLine B";
    assert line[..1] == "\t" && line[1..] == "Line B";
    StripLeftAt(line, 1);
    assert "Line B"[6..] == [] && "Line B"[..6] == "Line B";
    StripRightAt("Line B", 6);
  }

  lemma StripBlankLine()
    ensures Strip("   ") == []
  {
  }

  /** The cleanup example: padding goes, blank lines go, the rest stays in order. */
  lemma CleanExample()
    ensures CleanExtractedText("  Line A  \n\n\tLine B\n   \n") == "Line A\nLine B"
  {
    var text := "  Line A  \n\n\tLine B\n   \n";
    SplitExample();
    CleanLinesExample();
    JoinExample();
    assert CleanExtractedText(text) == Join(CleanLines(Split(text, Newline)), Newline);
  }

  lemma JoinExample()
    ensures Join(["Line A", "Line B"], Newline) == "Line A\nLine B"
  {
  }

  /** Whitespace-only OCR output cleans to nothing. */
  lemma CleanBlankExample()
    ensures CleanExtractedText("  \n\t\n ") == ""
  {
    CleanWhitespaceOnly("  \n\t\n ");
  }

  // ---------------------------------------------------------------------------
  // The pipeline around the OCR call
  // ---------------------------------------------------------------------------

  /** Why a run stopped: the exceptions the pipeline raises or lets through. */
  datatype Fault =
    | FileNotFound         // `os.path.exists` said no
    | UnreadableImage      // `cv2.imread` returned `None`
    | PreprocessingFailed  // grayscale, denoising, thresholding or dilation raised
    | OcrFailed            // converting the array or running the OCR engine raised
    | SaveFailed           // storing the upload raised

  /** The foreign calls, none of whose code is modelled: `Raw` is a decoded
      colour image, `Img` the binary image the OCR engine reads. */
  datatype Backend<!Raw, !Img> = Backend(
    fileExists: string -> bool,          // os.path.exists
    imread: string -> Option<Raw>,       // cv2.imread
    normalize: Raw -> Option<Img>,       // grayscale, denoise, Otsu threshold, 2x2 dilation
    ocr: Img -> Option<string>)          // Image.fromarray, then pytesseract with '--oem 3 --psm 6'

  /** `preprocess_image`: an unreadable file raises, and so does any failure of
      the image operations; otherwise their result is returned. */
  function PreprocessImage<Raw, Img>(path: string, b: Backend<Raw, Img>): (r: Result<Img, Fault>)
    ensures b.imread(path).None? ==> r == Failure(UnreadableImage)
    ensures b.imread(path).Some? ==>
              (r.Success? <==> b.normalize(b.imread(path).value).Some?) &&
              (r.Failure? ==> r.error == PreprocessingFailed)
    ensures r.Success? ==> Some(r.value) == b.normalize(b.imread(path).value)
  {
    match b.imread(path)
    case None => Failure(UnreadableImage)
    case Some(raw) =>
      match b.normalize(raw)
      case None => Failure(PreprocessingFailed)
      case Some(img) => Success(img)
  }

  /** `extract_text_from_image`: run the OCR engine, clean what it read, and
      give the sentinel message instead of empty text. */
  function ExtractTextFromImage<Img>(image: Img, ocr: Img -> Option<string>): (r: Result<string, Fault>)
    ensures r.Failure? <==> ocr(image).None?
    ensures r.Failure? ==> r.error == OcrFailed
    ensures r.Success? ==> r.value != [] && IsExtractedText(r.value) && CleanExtractedText(r.value) == r.value
    ensures r.Success? && AllSpace(ocr(image).value) ==> r.value == NoTextMessage
    ensures r.Success? && !AllSpace(ocr(image).value) ==> r.value == CleanExtractedText(ocr(image).value)
  {
    match ocr(image)
    case None => Failure(OcrFailed)
    case Some(raw) =>
      var cleaned := CleanExtractedText(raw);
      CleanWhitespaceOnly(raw);
      CleanIdempotent(raw);
      SentinelIsExtractedText();
      Success(if cleaned != [] then cleaned else NoTextMessage)
  }

  /** The sentinel is itself well-formed cleaned text. */
  lemma SentinelIsExtractedText()
    ensures IsExtractedText(NoTextMessage) && CleanExtractedText(NoTextMessage) == NoTextMessage
  {
    assert Newline !in NoTextMessage;
    SingleLine(NoTextMessage);
  }

  /** A non-empty line without a newline or outer whitespace is cleaned text. */
  lemma SingleLine(s: string)
    requires s != [] && Trimmed(s) && Newline !in s
    ensures IsExtractedText(s) && CleanExtractedText(s) == s
  {
    SplitNoSeparator(s, Newline);
    CleanFixedPoint(s);
  }

  /** Preprocessing followed by extraction, the first failure deciding the
      fault: the part of the pipeline that `process_prescription` and the
      upload route share. */
  function PreprocessAndExtract<Raw, Img>(path: string, b: Backend<Raw, Img>): (r: Result<string, Fault>)
    ensures PreprocessImage(path, b).Failure? ==> r == Failure(PreprocessImage(path, b).error)
    ensures PreprocessImage(path, b).Success? ==> r == ExtractTextFromImage(PreprocessImage(path, b).value, b.ocr)
    ensures r.Success? ==> r.value != [] && IsExtractedText(r.value)
    ensures r.Failure? ==> r.error == UnreadableImage || r.error == PreprocessingFailed || r.error == OcrFailed
  {
    match PreprocessImage(path, b)
    case Failure(e) => Failure(e)
    case Success(img) => ExtractTextFromImage(img, b.ocr)
  }

  /** The body of `process_prescription`'s `try`: the first failing stage
      decides the fault. */
  function RunPipeline<Raw, Img>(path: string, b: Backend<Raw, Img>): (r: Result<string, Fault>)
    ensures !b.fileExists(path) ==> r == Failure(FileNotFound)
    ensures b.fileExists(path) && PreprocessImage(path, b).Failure? ==> r == Failure(PreprocessImage(path, b).error)
    ensures b.fileExists(path) && PreprocessImage(path, b).Success? ==>
              r == ExtractTextFromImage(PreprocessImage(path, b).value, b.ocr)
  {
    if !b.fileExists(path) then Failure(FileNotFound)
    else PreprocessAndExtract(path, b)
  }

  /** `process_prescription`: `None` when the file is missing or any stage
      fails, and otherwise the non-empty, cleaned text the extractor returns. */
  function ProcessPrescription<Raw, Img>(path: string, b: Backend<Raw, Img>): (r: Option<string>)
    ensures !b.fileExists(path) ==> r.None?
    ensures r.Some? <==>
              && b.fileExists(path)
              && b.imread(path).Some?
              && b.normalize(b.imread(path).value).Some?
              && b.ocr(b.normalize(b.imread(path).value).value).Some?
    ensures r.Some? ==> r.value != [] && IsExtractedText(r.value)
    ensures r.Some? ==> r.value == ExtractTextFromImage(b.normalize(b.imread(path).value).value, b.ocr).value
  {
    RunPipeline(path, b).ToOption()
  }
}
