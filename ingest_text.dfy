/**
 * The two text helpers of the ingestion scripts: `read_pdf_text`, which joins
 * the text of a PDF's pages, and `chunk_text`, the sliding-window chunker.
 * Both scripts define them with identical bodies; this module models them once.
 *
 * The chunker's `while start < len(text)` loop does not terminate for a
 * non-empty text when the overlap is positive: once a window reaches the end
 * of the text the next start is `len(text) - overlap`, which is again inside
 * the text. The model therefore runs the loop for at most `fuel` iterations
 * and reports `None` when the loop has not exited by then.
 */
module IngestText {
  import opened Wrappers
  import opened PyText

  // ---------------------------------------------------------------------------
  // read_pdf_text

  /** What `page.extract_text()` did for one page of a PDF reader. */
  datatype PageOutcome =
    | Extracted(text: string)   // returned a string
    | NoText                    // returned None
    | ExtractFailed             // raised an exception

  /** `page.extract_text() or ""`, with a raising page read as `""`. */
  function PageText(p: PageOutcome): string {
    match p
    case Extracted(t) => t
    case NoText => ""
    case ExtractFailed => ""
  }

  function PageTexts(pages: seq<PageOutcome>): (texts: seq<string>)
    ensures |texts| == |pages|
  {
    seq(|pages|, i requires 0 <= i < |pages| => PageText(pages[i]))
  }

  /** The text `read_pdf_text` returns for a reader with these pages. */
  function PdfText(pages: seq<PageOutcome>): string {
    Join("\n", PageTexts(pages))
  }

  /** `read_pdf_text`: collect each page's text (a failing page gives `""`) and join with newlines. */
  method ReadPdfText(pages: seq<PageOutcome>) returns (text: string)
    ensures text == PdfText(pages)
  {
    var texts: seq<string> := [];
    for i := 0 to |pages|
      invariant texts == PageTexts(pages[..i])
    {
      texts := texts + [PageText(pages[i])];
    }
    assert pages[..|pages|] == pages;
    text := Join("\n", texts);
  }

  /**
   * Every page keeps its own slot in the text: when no page text contains a
   * newline, splitting the result at newlines gives back one entry per page,
   * `""` for a page that failed or had no text.
   */
  lemma PdfTextSplitsIntoPages(pages: seq<PageOutcome>)
    requires |pages| >= 1
    requires forall i :: 0 <= i < |pages| ==> '\n' !in PageText(pages[i])
    ensures Split(PdfText(pages), '\n') == PageTexts(pages)
    ensures forall i :: 0 <= i < |pages| && !pages[i].Extracted? ==> Split(PdfText(pages), '\n')[i] == ""
  {
    SplitJoin(PageTexts(pages), '\n');
  }

  // ---------------------------------------------------------------------------
  // chunk_text

  const DefaultChunkChars: int := 1200
  const DefaultOverlap: int := 150

  /** `text.replace("\r", "\n")`: the same length, with every carriage return turned into a newline. */
  function NormalizeNewlines(text: string): (t: string)
    ensures |t| == |text| && '\r' !in t
    ensures forall i :: 0 <= i < |text| && text[i] != '\r' ==> t[i] == text[i]
  {
    ReplaceChar(text, '\r', '\n')
  }

  /** A CRLF pair becomes two newlines, so the windows see one more line break, not one fewer character. */
  lemma CrLfBecomesTwoNewlines(text: string, i: nat)
    requires StartsAt(text, i, "\r\n")
    ensures StartsAt(NormalizeNewlines(text), i, "\n\n")
  {
    assert text[i] == "\r\n"[0] && text[i + 1] == "\r\n"[1];
  }

  /** `start = min(len(text), start + chunk_chars) - overlap`, clamped at 0, for a text of length `n`. */
  function NextStart(n: nat, start: nat, chunkChars: int, overlap: int): nat {
    var next := Min(n, start + chunkChars) - overlap;
    if next < 0 then 0 else next
  }

  /** The unstripped window `text[start:min(len(text), start + chunk_chars)]`. */
  function RawWindow(t: string, chunkChars: int, start: nat): string {
    Slice(t, start, Min(|t|, start + chunkChars))
  }

  /** The span the loop appends for a window starting at `start`. */
  function Window(t: string, chunkChars: int, start: nat): string {
    Strip(RawWindow(t, chunkChars, start))
  }

  /** `[s for s in spans if s]` */
  function NonEmptyOnly(spans: seq<string>): (r: seq<string>)
    ensures |r| <= |spans|
    ensures forall x :: x in r <==> x in spans && x != ""
    decreases |spans|
  {
    if spans == [] then []
    else (if spans[0] != "" then [spans[0]] else []) + NonEmptyOnly(spans[1..])
  }

  /**
   * The rest of the loop from the state (`start`, `spans`), with at most `fuel`
   * more iterations: the filtered spans once `start < len(text)` fails, and
   * `None` when the fuel runs out first.
   */
  function Run(t: string, chunkChars: int, overlap: int, start: nat, spans: seq<string>, fuel: nat): Option<seq<string>>
    decreases fuel
  {
    if start >= |t| then Some(NonEmptyOnly(spans))
    else if fuel == 0 then None
    else Run(t, chunkChars, overlap, NextStart(|t|, start, chunkChars, overlap), spans + [Window(t, chunkChars, start)], fuel - 1)
  }

  /** `chunk_text(text, chunk_chars, overlap)` when its loop exits within `fuel` iterations, `None` when it does not. */
  function ChunkSpec(text: string, chunkChars: int, overlap: int, fuel: nat): (r: Option<seq<string>>)
    ensures text == "" ==> r == Some([])
    ensures text != "" && fuel == 0 ==> r == None
  {
    Run(NormalizeNewlines(text), chunkChars, overlap, 0, [], fuel)
  }

  /** `chunk_text`, running at most `fuel` iterations of its loop. */
  method ChunkText(text: string, chunkChars: int, overlap: int, fuel: nat) returns (chunks: Option<seq<string>>)
    ensures chunks == ChunkSpec(text, chunkChars, overlap, fuel)
  {
    var t := NormalizeNewlines(text);
    var spans: seq<string> := [];
    var start: nat := 0;
    var k: nat := 0;
    while start < |t|
      invariant k <= fuel
      invariant Run(t, chunkChars, overlap, start, spans, fuel - k) == ChunkSpec(text, chunkChars, overlap, fuel)
      decreases fuel - k
    {
      if k == fuel {
        return None;
      }
      var end := Min(|t|, start + chunkChars);
      spans := spans + [Strip(Slice(t, start, end))];
      var next := end - overlap;
      if next < 0 {
        next := 0;
      }
      start := next;
      k := k + 1;
    }
    chunks := Some(NonEmptyOnly(spans));
  }

  // ---------------------------------------------------------------------------
  // The windows of chunk_text

  /** The value of `start` after `k` more iterations from `start == a`, for a text of length `n`. */
  function StartAfter(n: nat, chunkChars: int, overlap: int, a: nat, k: nat): nat
    decreases k
  {
    if k == 0 then a else StartAfter(n, chunkChars, overlap, NextStart(n, a, chunkChars, overlap), k - 1)
  }

  /** The values `start` takes at the tops of the first `k` iterations from `a`. */
  function Starts(n: nat, chunkChars: int, overlap: int, a: nat, k: nat): (ss: seq<nat>)
    ensures |ss| == k
    decreases k
  {
    if k == 0 then [] else [a] + Starts(n, chunkChars, overlap, NextStart(n, a, chunkChars, overlap), k - 1)
  }

  /** The guard `start < len(text)` holds at the top of each of the first `k` iterations from `a`. */
  predicate Inside(n: nat, chunkChars: int, overlap: int, a: nat, k: nat)
    decreases k
  {
    k == 0 || (a < n && Inside(n, chunkChars, overlap, NextStart(n, a, chunkChars, overlap), k - 1))
  }

  /** The loop started at `a` exits after exactly `k` iterations. */
  predicate ExitsAfter(n: nat, chunkChars: int, overlap: int, a: nat, k: nat) {
    Inside(n, chunkChars, overlap, a, k) && StartAfter(n, chunkChars, overlap, a, k) >= n
  }

  /** The stripped windows at the given starts, in order. */
  function Windows(t: string, chunkChars: int, starts: seq<nat>): (w: seq<string>)
    ensures |w| == |starts|
    decreases |starts|
  {
    if starts == [] then [] else [Window(t, chunkChars, starts[0])] + Windows(t, chunkChars, starts[1..])
  }

  /** The `i`-th start is the value of `start` after `i` iterations. */
  lemma {:induction false} StartsIndex(n: nat, chunkChars: int, overlap: int, a: nat, k: nat, i: nat)
    requires i < k
    ensures Starts(n, chunkChars, overlap, a, k)[i] == StartAfter(n, chunkChars, overlap, a, i)
    decreases k
  {
    if i > 0 {
      StartsIndex(n, chunkChars, overlap, NextStart(n, a, chunkChars, overlap), k - 1, i - 1);
    }
  }

  /** The `i`-th window is the one at the `i`-th start. */
  lemma {:induction false} WindowsAt(t: string, chunkChars: int, starts: seq<nat>, i: nat)
    requires i < |starts|
    ensures Windows(t, chunkChars, starts)[i] == Window(t, chunkChars, starts[i])
    decreases |starts|
  {
    if i > 0 {
      WindowsAt(t, chunkChars, starts[1..], i - 1);
    }
  }

  /** The guard held at every one of the first `k` starts. */
  lemma {:induction false} InsideAt(n: nat, chunkChars: int, overlap: int, a: nat, k: nat, i: nat)
    requires i < k && Inside(n, chunkChars, overlap, a, k)
    ensures StartAfter(n, chunkChars, overlap, a, i) < n
    decreases k
  {
    if i > 0 {
      InsideAt(n, chunkChars, overlap, NextStart(n, a, chunkChars, overlap), k - 1, i - 1);
    }
  }

  /** Running the loop on from (`a`, `spans`) either exits after some `m` iterations, adding the windows at the `m` starts it visits, or is still running when the fuel runs out. */
  lemma {:induction false} RunFrom(t: string, chunkChars: int, overlap: int, a: nat, spans: seq<string>, fuel: nat)
    ensures var n := |t|;
      var r := Run(t, chunkChars, overlap, a, spans, fuel);
      && (r.Some? ==> exists m: nat :: m <= fuel && ExitsAfter(n, chunkChars, overlap, a, m)
                                && r.value == NonEmptyOnly(spans + Windows(t, chunkChars, Starts(n, chunkChars, overlap, a, m))))
      && (r.None? ==> Inside(n, chunkChars, overlap, a, fuel + 1))
    decreases fuel
  {
    var n := |t|;
    if a >= n {
      assert ExitsAfter(n, chunkChars, overlap, a, 0);
      assert spans + Windows(t, chunkChars, Starts(n, chunkChars, overlap, a, 0)) == spans;
    } else if fuel > 0 {
      var b := NextStart(n, a, chunkChars, overlap);
      var w := Window(t, chunkChars, a);
      RunFrom(t, chunkChars, overlap, b, spans + [w], fuel - 1);
      var r := Run(t, chunkChars, overlap, b, spans + [w], fuel - 1);
      if r.Some? {
        var m: nat :| m <= fuel - 1 && ExitsAfter(n, chunkChars, overlap, b, m)
                && r.value == NonEmptyOnly(spans + [w] + Windows(t, chunkChars, Starts(n, chunkChars, overlap, b, m)));
        ExitsStep(n, chunkChars, overlap, a, m);
        WindowsStep(t, chunkChars, overlap, a, m, spans);
      }
    }
  }

  /** How many iterations the loop runs, without the spans: it exits after some `m <= fuel`, or the guard held at all `fuel + 1` starts. */
  lemma {:induction false} RunExits(t: string, chunkChars: int, overlap: int, a: nat, spans: seq<string>, fuel: nat)
    ensures var r := Run(t, chunkChars, overlap, a, spans, fuel);
      && (r.Some? ==> exists m: nat :: m <= fuel && ExitsAfter(|t|, chunkChars, overlap, a, m))
      && (r.None? ==> Inside(|t|, chunkChars, overlap, a, fuel + 1))
    decreases fuel
  {
    var n := |t|;
    if a >= n {
      assert ExitsAfter(n, chunkChars, overlap, a, 0);
    } else if fuel > 0 {
      var b := NextStart(n, a, chunkChars, overlap);
      RunExits(t, chunkChars, overlap, b, spans + [Window(t, chunkChars, a)], fuel - 1);
      if Run(t, chunkChars, overlap, b, spans + [Window(t, chunkChars, a)], fuel - 1).Some? {
        var m: nat :| m <= fuel - 1 && ExitsAfter(n, chunkChars, overlap, b, m);
        ExitsStep(n, chunkChars, overlap, a, m);
      }
    }
  }

  lemma ExitsStep(n: nat, chunkChars: int, overlap: int, a: nat, m: nat)
    requires a < n && ExitsAfter(n, chunkChars, overlap, NextStart(n, a, chunkChars, overlap), m)
    ensures ExitsAfter(n, chunkChars, overlap, a, m + 1)
  {
  }

  lemma WindowsStep(t: string, chunkChars: int, overlap: int, a: nat, m: nat, spans: seq<string>)
    ensures var b := NextStart(|t|, a, chunkChars, overlap);
      spans + [Window(t, chunkChars, a)] + Windows(t, chunkChars, Starts(|t|, chunkChars, overlap, b, m))
      == spans + Windows(t, chunkChars, Starts(|t|, chunkChars, overlap, a, m + 1))
  {
    var b := NextStart(|t|, a, chunkChars, overlap);
    var ss := Starts(|t|, chunkChars, overlap, a, m + 1);
    assert ss[1..] == Starts(|t|, chunkChars, overlap, b, m);
    Assoc(spans, [Window(t, chunkChars, a)], Windows(t, chunkChars, Starts(|t|, chunkChars, overlap, b, m)));
  }

  lemma Assoc<T>(x: seq<T>, y: seq<T>, z: seq<T>)
    ensures x + y + z == x + (y + z)
  {
  }

  /**
   * The chunks are exactly the non-empty stripped windows at the starts the
   * loop visits before `start < len(text)` first fails; `None` means the
   * guard still held after `fuel` iterations.
   */
  lemma ChunksAreWindows(text: string, chunkChars: int, overlap: int, fuel: nat)
    ensures var t := NormalizeNewlines(text);
      var r := ChunkSpec(text, chunkChars, overlap, fuel);
      && (r.Some? ==> exists m: nat :: m <= fuel && ExitsAfter(|t|, chunkChars, overlap, 0, m)
                                && r.value == NonEmptyOnly(Windows(t, chunkChars, Starts(|t|, chunkChars, overlap, 0, m))))
      && (r.None? ==> Inside(|t|, chunkChars, overlap, 0, fuel + 1))
  {
    var t := NormalizeNewlines(text);
    RunFrom(t, chunkChars, overlap, 0, [], fuel);
    var r := ChunkSpec(text, chunkChars, overlap, fuel);
    if r.Some? {
      var m: nat :| m <= fuel && ExitsAfter(|t|, chunkChars, overlap, 0, m)
              && r.value == NonEmptyOnly([] + Windows(t, chunkChars, Starts(|t|, chunkChars, overlap, 0, m)));
      assert [] + Windows(t, chunkChars, Starts(|t|, chunkChars, overlap, 0, m)) == Windows(t, chunkChars, Starts(|t|, chunkChars, overlap, 0, m));
    }
  }

  /** An empty text gives `[]` without entering the loop. */
  lemma EmptyTextNoChunks(chunkChars: int, overlap: int, fuel: nat)
    ensures ChunkSpec("", chunkChars, overlap, fuel) == Some([])
  {
  }

  // ---------------------------------------------------------------------------
  // Shape of each chunk

  /** A chunk of `t`: at most `chunkChars` long, a contiguous piece of `t`, with no white space at either end. */
  predicate ChunkOf(t: string, chunkChars: int, x: string) {
    && |x| <= chunkChars
    && Contains(t, x)
    && (x != [] ==> !IsSpace(x[0]) && !IsSpace(x[|x| - 1]))
  }

  lemma WindowIsChunk(t: string, chunkChars: int, start: nat)
    requires 0 <= chunkChars && start < |t|
    ensures ChunkOf(t, chunkChars, Window(t, chunkChars, start))
  {
    var e := Min(|t|, start + chunkChars);
    var w := RawWindow(t, chunkChars, start);
    assert w == t[start..e];
    StripShape(w);
    var x := Strip(w);
    var i :| StartsAt(w, i, x);
    StartsAtShift(t, start, e, i, x);
  }

  lemma {:induction false} RunKeepsChunks(t: string, chunkChars: int, overlap: int, start: nat, spans: seq<string>, fuel: nat)
    requires 0 <= chunkChars
    requires forall x :: x in spans ==> ChunkOf(t, chunkChars, x)
    ensures var r := Run(t, chunkChars, overlap, start, spans, fuel);
      r.Some? ==> forall x :: x in r.value ==> x != "" && ChunkOf(t, chunkChars, x)
    decreases fuel
  {
    if start < |t| && fuel > 0 {
      WindowIsChunk(t, chunkChars, start);
      RunKeepsChunks(t, chunkChars, overlap, NextStart(|t|, start, chunkChars, overlap), spans + [Window(t, chunkChars, start)], fuel - 1);
    }
  }

  /** Every chunk is non-empty, at most `chunk_chars` long, a piece of the normalised text, and stripped. */
  lemma ChunkBounds(text: string, chunkChars: int, overlap: int, fuel: nat)
    requires 0 <= chunkChars
    ensures var r := ChunkSpec(text, chunkChars, overlap, fuel);
      r.Some? ==> forall x :: x in r.value ==> 0 < |x| <= chunkChars && ChunkOf(NormalizeNewlines(text), chunkChars, x)
  {
    RunKeepsChunks(NormalizeNewlines(text), chunkChars, overlap, 0, [], fuel);
  }

  // ---------------------------------------------------------------------------
  // How `start` moves

  /** While the window ends before the text does, the next start is `start + chunk_chars - overlap`, clamped at 0; once it reaches the end, the next start is `len(text) - overlap`, clamped at 0. */
  lemma NextStartCases(n: nat, start: nat, chunkChars: int, overlap: int)
    ensures start + chunkChars < n ==> NextStart(n, start, chunkChars, overlap) == Max(0, start + chunkChars - overlap)
    ensures start + chunkChars >= n ==> NextStart(n, start, chunkChars, overlap) == Max(0, n - overlap)
  {
  }

  /** With a positive overlap, the next start is always inside a non-empty text. */
  lemma NextStartInside(n: nat, start: nat, chunkChars: int, overlap: int)
    requires 0 < n && 0 < overlap
    ensures NextStart(n, start, chunkChars, overlap) < n
  {
  }

  /**
   * `max(0, len(text) - overlap)` is a fixed point of the loop whenever the
   * window from there reaches the end again (the window is at least `overlap`
   * long, or the text is no longer than the overlap), and it lies inside the text.
   */
  lemma RestartIsFixedPoint(n: nat, chunkChars: int, overlap: int)
    requires 0 < n && 0 < overlap
    requires n <= overlap || overlap <= chunkChars
    ensures Max(0, n - overlap) < n
    ensures NextStart(n, Max(0, n - overlap), chunkChars, overlap) == Max(0, n - overlap)
  {
  }

  lemma {:induction false} RunNeverExits(t: string, chunkChars: int, overlap: int, start: nat, spans: seq<string>, fuel: nat)
    requires 0 < overlap && start < |t|
    ensures Run(t, chunkChars, overlap, start, spans, fuel) == None
    decreases fuel
  {
    if fuel > 0 {
      NextStartInside(|t|, start, chunkChars, overlap);
      RunNeverExits(t, chunkChars, overlap, NextStart(|t|, start, chunkChars, overlap), spans + [Window(t, chunkChars, start)], fuel - 1);
    }
  }

  /** With a positive overlap the loop never exits on a non-empty text, whatever the fuel; the defaults 1200/150 are such a case. */
  lemma PositiveOverlapNeverExits(text: string, chunkChars: int, overlap: int, fuel: nat)
    requires 0 < overlap && text != ""
    ensures ChunkSpec(text, chunkChars, overlap, fuel) == None
  {
    RunNeverExits(NormalizeNewlines(text), chunkChars, overlap, 0, [], fuel);
  }

  // ---------------------------------------------------------------------------
  // Overlap 0

  /** With no overlap and `chunk_chars > 0`, `k` iterations from `a` move `start` to `min(len(text), a + k * chunk_chars)`. */
  lemma {:induction false} NoOverlapStarts(n: nat, chunkChars: int, a: nat, k: nat)
    requires 0 < chunkChars && a <= n
    ensures StartAfter(n, chunkChars, 0, a, k) == Min(n, a + k * chunkChars)
    decreases k
  {
    if k > 0 {
      var b := NextStart(n, a, chunkChars, 0);
      NoOverlapStarts(n, chunkChars, b, k - 1);
      assert a + k * chunkChars == a + chunkChars + (k - 1) * chunkChars;
      assert (k - 1) * chunkChars >= 0;
    }
  }

  /** `"".join(parts)` */
  function Concat(parts: seq<string>): string
    decreases |parts|
  {
    if parts == [] then "" else parts[0] + Concat(parts[1..])
  }

  /** The unstripped windows at the given starts, in order. */
  function RawWindows(t: string, chunkChars: int, starts: seq<nat>): (w: seq<string>)
    ensures |w| == |starts|
    decreases |starts|
  {
    if starts == [] then [] else [RawWindow(t, chunkChars, starts[0])] + RawWindows(t, chunkChars, starts[1..])
  }

  /** With no overlap the unstripped windows tile the text: together they are exactly the text from `a` up to the start reached. */
  lemma {:induction false} NoOverlapTiles(t: string, chunkChars: int, a: nat, k: nat)
    requires 0 < chunkChars && a <= |t|
    ensures a <= StartAfter(|t|, chunkChars, 0, a, k) <= |t|
    ensures Concat(RawWindows(t, chunkChars, Starts(|t|, chunkChars, 0, a, k))) == t[a..StartAfter(|t|, chunkChars, 0, a, k)]
    decreases k
  {
    if k > 0 {
      var n := |t|;
      var b := NextStart(n, a, chunkChars, 0);
      NoOverlapTiles(t, chunkChars, b, k - 1);
      var ss := Starts(n, chunkChars, 0, a, k);
      assert ss[0] == a && ss[1..] == Starts(n, chunkChars, 0, b, k - 1);
      var e := StartAfter(n, chunkChars, 0, b, k - 1);
      assert RawWindow(t, chunkChars, a) == t[a..b];
      assert t[a..b] + t[b..e] == t[a..e];
    }
  }

  lemma MulMonotone(x: nat, y: nat, c: nat)
    requires x <= y
    ensures x * c <= y * c
  {
  }

  /** With no overlap the loop exits within `fuel` iterations exactly when `fuel` windows cover the text. */
  lemma NoOverlapExits(text: string, chunkChars: int, fuel: nat)
    requires 0 < chunkChars
    ensures ChunkSpec(text, chunkChars, 0, fuel).Some? <==> |text| <= fuel * chunkChars
  {
    var t := NormalizeNewlines(text);
    var n := |t|;
    RunExits(t, chunkChars, 0, 0, [], fuel);
    if ChunkSpec(text, chunkChars, 0, fuel).Some? {
      var m: nat :| m <= fuel && ExitsAfter(n, chunkChars, 0, 0, m);
      NoOverlapStarts(n, chunkChars, 0, m);
      MulMonotone(m, fuel, chunkChars);
    } else {
      InsideAt(n, chunkChars, 0, 0, fuel + 1, fuel);
      NoOverlapStarts(n, chunkChars, 0, fuel);
    }
  }
}
