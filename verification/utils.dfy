/** Text helpers of the retrieval pipeline (src/utils.py): file-name
    cleaning, truncation, text cleaning before embedding, and chunking.
 */
module Utils {
  import opened Text

  // ---------------------------------------------------------------------------
  // safe_filename

  /** The characters `safe_filename` replaces: `<>:"/\|?*`. */
  const Unsafe: set<char> := {'<', '>', ':', '"', '/', '\\', '|', '?', '*'}

  /** A name `safe_filename` leaves alone: no unsafe character, no two
      underscores in a row, and no underscore at either end. */
  predicate SafeName(s: string) {
    (forall i :: 0 <= i < |s| ==> s[i] !in Unsafe) &&
    NoAdjacent(s, {'_'}) &&
    (s != [] ==> s[0] != '_' && s[|s| - 1] != '_')
  }

  lemma UnderscoreIsSafe()
    ensures '_' !in Unsafe
  {
  }

  /** `safe_filename`'s first two substitutions: unsafe characters become
      '_', then runs of '_' become one. */
  function Underscored(filename: string): string {
    SqueezeRuns(ReplaceIn(filename, Unsafe, '_'), {'_'}, '_')
  }

  /** `safe_filename`: the underscored name with leading and trailing '_'
      stripped. The result is a safe name made of underscores and safe
      characters of the input. */
  function SafeFilename(filename: string): (r: string)
    ensures SafeName(r)
    ensures forall x :: x in r ==> x == '_' || (x in filename && x !in Unsafe)
    ensures forall x :: x in filename && x !in Unsafe && x != '_' ==> x in r
  {
    StrippedChars(filename);
    StrippedIsSafe(filename);
    StrippedKeeps(filename);
    StripChars(Underscored(filename), {'_'})
  }

  lemma UnderscoredChars(filename: string)
    ensures forall x :: x in Underscored(filename) ==> x == '_' || (x in filename && x !in Unsafe)
  {
    var replaced := ReplaceIn(filename, Unsafe, '_');
    ReplaceInChars(filename, Unsafe, '_');
    SqueezeRunsChars(replaced, {'_'}, '_');
  }

  lemma StrippedChars(filename: string)
    ensures forall x :: x in StripChars(Underscored(filename), {'_'}) ==> x == '_' || (x in filename && x !in Unsafe)
  {
    UnderscoredChars(filename);
    StripCharsKeeps(Underscored(filename), {'_'}, {'_'});
  }

  /** Every safe input character other than '_' survives all three steps. */
  lemma StrippedKeeps(filename: string)
    ensures forall x :: x in filename && x !in Unsafe && x != '_' ==> x in StripChars(Underscored(filename), {'_'})
  {
    var replaced := ReplaceIn(filename, Unsafe, '_');
    ReplaceInKeepsOthers(filename, Unsafe, '_');
    SqueezeRunsKeepsOthers(replaced, {'_'}, '_');
    StripCharsKeepsOthers(Underscored(filename), {'_'});
  }

  lemma StrippedIsSafe(filename: string)
    ensures SafeName(StripChars(Underscored(filename), {'_'}))
  {
    var u := Underscored(filename);
    var r := StripChars(u, {'_'});
    StrippedChars(filename);
    SqueezeRunsNoAdjacent(ReplaceIn(filename, Unsafe, '_'), {'_'}, '_');
    StripCharsKeeps(u, {'_'}, {'_'});
    UnderscoreIsSafe();
    forall i | 0 <= i < |r| ensures r[i] !in Unsafe {
      assert r[i] in r;
    }
  }

  /** The names `safe_filename` returns are exactly the ones it leaves alone. */
  lemma SafeFilenameFixedPoints(filename: string)
    ensures SafeFilename(filename) == filename <==> SafeName(filename)
  {
    if SafeName(filename) {
      ReplaceInNoop(filename, Unsafe, '_');
      SqueezeRunsNoop(filename, {'_'}, '_');
      StripCharsNoop(filename, {'_'});
    }
  }

  /** Hence cleaning a name twice is cleaning it once. */
  lemma SafeFilenameIdempotent(filename: string)
    ensures SafeFilename(SafeFilename(filename)) == SafeFilename(filename)
  {
    var once := SafeFilename(filename);
    SafeFilenameFixedPoints(once);
  }

  // ---------------------------------------------------------------------------
  // truncate_text

  /** Python's `s[:k]`: a negative `k` counts from the end, and both ends are clipped. */
  function PrefixTo(s: string, k: int): (r: string)
    ensures k >= 0 ==> |r| == if k <= |s| then k else |s|
    ensures k < 0 ==> |r| == if |s| + k >= 0 then |s| + k else 0
    ensures r == s[..|r|]
  {
    if k >= 0 then (if k <= |s| then s[..k] else s)
    else if |s| + k >= 0 then s[..|s| + k]
    else []
  }

  /** `truncate_text`: text that fits is returned as is; longer text is cut
      to `max_length - 3` characters (a Python slice) followed by "...". */
  function TruncateText(text: string, maxLength: int): (r: string)
    ensures |text| <= maxLength ==> r == text
    ensures |text| > maxLength ==> EndsWith(r, "...") && StartsWith(text, r[..|r| - 3])
    ensures |text| > maxLength && maxLength >= 3 ==> |r| == maxLength
  {
    if |text| <= maxLength then text
    else
      var r := PrefixTo(text, maxLength - 3) + "...";
      assert r[..|r| - 3] == PrefixTo(text, maxLength - 3);
      r
  }

  /** Below three characters the limit is not kept: the negative slice
      counts from the end, so the result is longer than `max_length`. */
  lemma TruncateTinyLimit(text: string, maxLength: int)
    requires 0 <= maxLength < 3 && |text| > 3
    ensures |TruncateText(text, maxLength)| == |text| + maxLength > maxLength
  {
  }

  // ---------------------------------------------------------------------------
  // clean_text_for_embedding

  /** The punctuation whose runs are cut down to one character. */
  const Punctuation: set<char> := {'.', ',', '!', '?', ';', ':'}

  /** The non-word, non-space characters the cleaning keeps: `-.,!?;:()[]{}"`. */
  const KeptSymbols: set<char> := {'-', '.', ',', '!', '?', ';', ':', '(', ')', '[', ']', '{', '}', '"'}

  predicate Allowed(c: char) {
    IsWordChar(c) || IsSpace(c) || c in KeptSymbols
  }

  /** `re.sub(r'[^\w\s\-.,!?;:()\[\]{}"]', ' ', s)`. */
  function BlankDisallowed(s: string): (r: string)
    ensures |r| == |s|
    ensures forall i :: 0 <= i < |s| ==> r[i] == if Allowed(s[i]) then s[i] else ' '
  {
    seq(|s|, i requires 0 <= i < |s| => if Allowed(s[i]) then s[i] else ' ')
  }

  /** `clean_text_for_embedding`'s first three substitutions: whitespace runs
      become one space, characters outside the kept set become spaces, and
      runs of punctuation keep their first character. */
  function Substituted(text: string): string {
    KeepFirstOfRuns(BlankDisallowed(SqueezeRuns(text, Whitespace, ' ')), Punctuation)
  }

  /** `clean_text_for_embedding`: the substituted text, stripped. The result
      is stripped, has no two punctuation marks in a row, and holds only
      word characters, spaces and kept symbols, all but the spaces taken
      from the input. Runs of whitespace are squeezed to one space before
      blanking, so blanked characters can still leave two spaces side by
      side ("a<>b" becomes "a  b"). */
  function CleanTextForEmbedding(text: string): (r: string)
    ensures r == [] || (!IsSpace(r[0]) && !IsSpace(r[|r| - 1]))
    ensures NoAdjacent(r, Punctuation)
    ensures forall i :: 0 <= i < |r| ==> IsWordChar(r[i]) || r[i] == ' ' || r[i] in KeptSymbols
    ensures forall i :: 0 <= i < |r| && r[i] != ' ' ==> r[i] in text
    ensures forall x :: x in text && IsWordChar(x) ==> x in r
  {
    CleanIsClean(text);
    CleanKeepsWords(text);
    Strip(Substituted(text))
  }

  lemma BlankedChars(text: string)
    ensures forall x :: x in BlankDisallowed(SqueezeRuns(text, Whitespace, ' ')) ==>
              x == ' ' || (x in text && !IsSpace(x) && Allowed(x))
  {
    var spaced := SqueezeRuns(text, Whitespace, ' ');
    var blanked := BlankDisallowed(spaced);
    SqueezeRunsChars(text, Whitespace, ' ');
    forall x | x in blanked ensures x == ' ' || (x in text && !IsSpace(x) && Allowed(x)) {
      var j :| 0 <= j < |blanked| && blanked[j] == x;
      assert spaced[j] in spaced;
    }
  }

  /** A word character is neither whitespace nor punctuation, and is allowed. */
  lemma WordCharSurvives(x: char)
    requires IsWordChar(x)
    ensures !IsSpace(x) && x !in Punctuation && Allowed(x)
  {
  }

  /** Every word character of the input survives the cleaning. */
  lemma CleanKeepsWords(text: string)
    ensures forall x :: x in text && IsWordChar(x) ==> x in Strip(Substituted(text))
  {
    var spaced := SqueezeRuns(text, Whitespace, ' ');
    var blanked := BlankDisallowed(spaced);
    SqueezeRunsKeepsOthers(text, Whitespace, ' ');
    KeepFirstOfRunsKeepsOthers(blanked, Punctuation);
    StripCharsKeepsOthers(Substituted(text), Whitespace);
    forall x | x in text && IsWordChar(x) ensures x in Strip(Substituted(text)) {
      WordCharSurvives(x);
      var j :| 0 <= j < |spaced| && spaced[j] == x;
      assert blanked[j] == x;
    }
  }

  lemma CleanChars(text: string)
    ensures forall x :: x in Strip(Substituted(text)) ==> x == ' ' || (x in text && !IsSpace(x) && Allowed(x))
    ensures NoAdjacent(Strip(Substituted(text)), Punctuation)
  {
    BlankedChars(text);
    KeepFirstOfRunsChars(BlankDisallowed(SqueezeRuns(text, Whitespace, ' ')), Punctuation);
    KeepFirstOfRunsNoAdjacent(BlankDisallowed(SqueezeRuns(text, Whitespace, ' ')), Punctuation);
    StripCharsKeeps(Substituted(text), Whitespace, Punctuation);
  }

  lemma CleanIsClean(text: string)
    ensures var r := Strip(Substituted(text));
            (r == [] || (!IsSpace(r[0]) && !IsSpace(r[|r| - 1]))) &&
            NoAdjacent(r, Punctuation) &&
            (forall i :: 0 <= i < |r| ==> IsWordChar(r[i]) || r[i] == ' ' || r[i] in KeptSymbols) &&
            (forall i :: 0 <= i < |r| && r[i] != ' ' ==> r[i] in text)
  {
    var r := Strip(Substituted(text));
    CleanChars(text);
    forall i | 0 <= i < |r|
      ensures IsWordChar(r[i]) || r[i] == ' ' || r[i] in KeptSymbols
      ensures r[i] != ' ' ==> r[i] in text
    {
      assert r[i] in r;
    }
  }

  /** Text already in the cleaned form: stripped, single spaces as the only
      whitespace, only kept characters, and no two punctuation marks in a row. */
  predicate Cleaned(s: string) {
    (s == [] || (!IsSpace(s[0]) && !IsSpace(s[|s| - 1]))) &&
    (forall i :: 0 <= i < |s| ==> IsWordChar(s[i]) || s[i] == ' ' || s[i] in KeptSymbols) &&
    NoAdjacent(s, Whitespace) && NoAdjacent(s, Punctuation)
  }

  /** Cleaning leaves text in the cleaned form unchanged. */
  lemma CleanedUnchanged(s: string)
    requires Cleaned(s)
    ensures CleanTextForEmbedding(s) == s
  {
    SqueezeRunsNoop(s, Whitespace, ' ');
    assert forall i :: 0 <= i < |s| ==> BlankDisallowed(s)[i] == s[i];
    assert BlankDisallowed(s) == s;
    KeepFirstOfRunsNoop(s, Punctuation);
    StripCharsNoop(s, Whitespace);
  }

  // ---------------------------------------------------------------------------
  // chunk_text

  /** `sentence_ends`: a character is compared with each entry, so the
      two-character entry "\n\n" can never match. */
  const SentenceEnds: seq<string> := [".", "!", "?", "\n\n"]

  /** The characters that end a sentence. */
  predicate EndsSentence(c: char) {
    c == '.' || c == '!' || c == '?'
  }

  lemma SentenceEndsSingle(c: char)
    ensures [c] in SentenceEnds <==> EndsSentence(c)
  {
    assert [c] != "\n\n";
    assert SentenceEnds[0] == "." && SentenceEnds[1] == "!" && SentenceEnds[2] == "?";
  }

  /** A sentence break at `i`: the character before ends a sentence and
      the character at `i` is a space. */
  predicate IsBreak(text: string, i: int) {
    0 < i < |text| && EndsSentence(text[i - 1]) && text[i] == ' '
  }

  /** The search `for i in range(lo, end)`: the first break, or `end`. */
  function FirstBreak(text: string, lo: int, end: int): (b: int)
    ensures lo <= end ==> lo <= b <= end
    ensures lo > end ==> b == end
    ensures b < end ==> IsBreak(text, b)
    ensures forall i :: lo <= i < b && i < end ==> !IsBreak(text, i)
    decreases end - lo
  {
    if lo >= end then end
    else if IsBreak(text, lo) then lo
    else FirstBreak(text, lo + 1, end)
  }

  /** The parameters under which the loop advances: each step moves
      `start` forward by at least `chunk_size - 100 - overlap`, which is
      positive here; a negative overlap only makes the steps longer. */
  predicate Advances(chunkSize: int, overlap: int) {
    chunkSize > 100 && overlap + 100 < chunkSize
  }

  /** The end of the chunk starting at `start`: `start + chunk_size`, moved
      back to the first sentence break in the last 100 characters while it
      lies inside the text. */
  function ChunkEnd(text: string, start: nat, chunkSize: int): (e: int)
    requires chunkSize > 100
    ensures start + chunkSize - 100 <= e <= start + chunkSize
  {
    var end := start + chunkSize;
    if end < |text| then FirstBreak(text, end - 100, end) else end
  }

  /** Where the chunk at `start` stops: its end, clipped to the text as a Python slice does. */
  function ChunkStop(text: string, start: nat, chunkSize: int): (stop: nat)
    requires chunkSize > 100 && start <= |text|
    ensures start <= stop <= |text| && stop <= start + chunkSize
    ensures stop == |text| || stop == ChunkEnd(text, start, chunkSize)
  {
    var end := ChunkEnd(text, start, chunkSize);
    if end <= |text| then end else |text|
  }

  /** A chunk: a non-blank string of at most `chunkSize` characters that
      neither starts nor ends with whitespace (so `strip` leaves it alone). */
  predicate IsChunk(chunkSize: int, c: string) {
    c != [] && !IsSpace(c[0]) && !IsSpace(c[|c| - 1]) && |c| <= chunkSize
  }

  /** The chunk the loop cuts at `start`: the slice up to the chunk end
      (clipped to the text), stripped. */
  function ChunkAt(text: string, start: nat, chunkSize: int): string
    requires chunkSize > 100 && start <= |text|
  {
    Strip(text[start..ChunkStop(text, start, chunkSize)])
  }

  /** The chunk at `start`, unless blank, is a chunk. */
  lemma ChunkAtBounded(text: string, start: nat, chunkSize: int)
    requires chunkSize > 100 && start <= |text|
    ensures var c := ChunkAt(text, start, chunkSize);
            c != [] ==> IsChunk(chunkSize, c)
  {
    var stop := ChunkStop(text, start, chunkSize);
    assert |text[start..stop]| <= chunkSize;
  }

  /** The chunk at `start` is a piece of the text at the returned position. */
  lemma ChunkAtIsPiece(text: string, start: nat, chunkSize: int) returns (at: int)
    requires chunkSize > 100 && start <= |text|
    ensures start <= at && PieceAt(text, at, ChunkAt(text, start, chunkSize))
  {
    var stop := ChunkStop(text, start, chunkSize);
    at := StripSliceIsPiece(text, start, stop);
  }

  /** `if chunk: chunks.append(chunk)`: a blank chunk adds nothing. */
  function Kept(chunk: string): seq<string> {
    if chunk != [] then [chunk] else []
  }

  /** The chunks the loop has once it reaches `start` with `acc` collected:
      it appends the chunk at `start` and moves on to `end - overlap`, and
      stops once that lies past the text. Every step moves `start` forward
      by at least `chunk_size - 100 - overlap`, which is the loop's
      termination argument. */
  function ChunksFrom(text: string, start: nat, chunkSize: int, overlap: int, acc: seq<string>): seq<string>
    requires Advances(chunkSize, overlap)
    decreases |text| - start
  {
    if start >= |text| then acc
    else
      ChunksFrom(text, Back(ChunkEnd(text, start, chunkSize), overlap), chunkSize, overlap,
                 acc + Kept(ChunkAt(text, start, chunkSize)))
  }

  /** `end - overlap`: where the next chunk starts. */
  function Back(end: int, overlap: int): int {
    end - overlap
  }

  /** Every element of `xs` is a chunk. */
  predicate AllChunks(chunkSize: int, xs: seq<string>) {
    xs == [] || (IsChunk(chunkSize, xs[0]) && AllChunks(chunkSize, xs[1..]))
  }

  lemma {:induction false} AllChunksMembers(chunkSize: int, xs: seq<string>)
    ensures AllChunks(chunkSize, xs) <==> forall c :: c in xs ==> IsChunk(chunkSize, c)
  {
    if xs != [] {
      AllChunksMembers(chunkSize, xs[1..]);
      if forall c :: c in xs ==> IsChunk(chunkSize, c) {
        assert xs[0] in xs;
        forall c | c in xs[1..] ensures IsChunk(chunkSize, c) {
          assert c in xs;
        }
      }
      if AllChunks(chunkSize, xs) {
        forall c | c in xs ensures IsChunk(chunkSize, c) {
          assert c == xs[0] || c in xs[1..];
        }
      }
    }
  }

  lemma {:induction false} AllChunksConcat(chunkSize: int, xs: seq<string>, ys: seq<string>)
    requires AllChunks(chunkSize, xs) && AllChunks(chunkSize, ys)
    ensures AllChunks(chunkSize, xs + ys)
  {
    if xs != [] {
      AllChunksConcat(chunkSize, xs[1..], ys);
      assert (xs + ys)[0] == xs[0];
      assert (xs + ys)[1..] == xs[1..] + ys;
    } else {
      assert xs + ys == ys;
    }
  }

  /** Started from chunks only, the loop collects only chunks. */
  lemma {:induction false} ChunksFromAreChunks(text: string, start: nat, chunkSize: int, overlap: int, acc: seq<string>)
    requires Advances(chunkSize, overlap) && AllChunks(chunkSize, acc)
    ensures AllChunks(chunkSize, ChunksFrom(text, start, chunkSize, overlap, acc))
    decreases |text| - start
  {
    if start < |text| {
      var acc' := acc + Kept(ChunkAt(text, start, chunkSize));
      KeptIsChunk(text, start, chunkSize);
      AllChunksConcat(chunkSize, acc, Kept(ChunkAt(text, start, chunkSize)));
      ChunksFromAreChunks(text, Back(ChunkEnd(text, start, chunkSize), overlap), chunkSize, overlap, acc');
    }
  }

  /** Started from pieces of the text only, the loop collects only pieces
      of the text. */
  lemma {:induction false} ChunksFromInText(text: string, start: nat, chunkSize: int, overlap: int, acc: seq<string>)
    requires Advances(chunkSize, overlap) && forall c :: c in acc ==> Contains(text, c)
    ensures forall c :: c in ChunksFrom(text, start, chunkSize, overlap, acc) ==> Contains(text, c)
    decreases |text| - start
  {
    if start < |text| {
      var chunk := ChunkAt(text, start, chunkSize);
      var at := ChunkAtIsPiece(text, start, chunkSize);
      assert Contains(text, chunk);
      var acc' := acc + Kept(chunk);
      forall c | c in acc' ensures Contains(text, c) {
        assert c in acc || c == chunk;
      }
      ChunksFromInText(text, Back(ChunkEnd(text, start, chunkSize), overlap), chunkSize, overlap, acc');
    }
  }

  lemma KeptIsChunk(text: string, start: nat, chunkSize: int)
    requires chunkSize > 100 && start <= |text|
    ensures AllChunks(chunkSize, Kept(ChunkAt(text, start, chunkSize)))
  {
    ChunkAtBounded(text, start, chunkSize);
  }

  /** `chunk_text`'s reference result: the whole text when it fits, the
      chunks from position 0 otherwise. */
  function Chunks(text: string, chunkSize: int, overlap: int): seq<string>
    requires Advances(chunkSize, overlap)
  {
    if |text| <= chunkSize then [text] else ChunksFrom(text, 0, chunkSize, overlap, [])
  }

  /** The inner loop of `chunk_text`: the first break in the last 100
      characters before `end`. */
  method FindBreak(text: string, end: int) returns (best: int)
    requires end < |text|
    ensures best == FirstBreak(text, end - 100, end)
  {
    best := end;
    var i := end - 100;
    while i < end
      invariant end - 100 <= i <= end
      invariant FirstBreak(text, i, end) == FirstBreak(text, end - 100, end)
      decreases end - i
    {
      if i > 0 {
        SentenceEndsSingle(text[i - 1]);
      }
      if i > 0 && [text[i - 1]] in SentenceEnds && text[i] == ' ' {
        best := i;
        break;
      }
      i := i + 1;
    }
  }

  /** The loop invariant carried over one step. */
  lemma ChunkLoopStep(text: string, start: nat, chunkSize: int, overlap: int, done: seq<string>, end: int, chunk: string,
                      total: seq<string>)
    requires Advances(chunkSize, overlap) && start < |text|
    requires ChunksFrom(text, start, chunkSize, overlap, done) == total
    requires end == ChunkEnd(text, start, chunkSize) && chunk == ChunkAt(text, start, chunkSize)
    ensures start < Back(end, overlap)
    ensures ChunksFrom(text, Back(end, overlap), chunkSize, overlap, done + Kept(chunk)) == total
  {
  }

  /** The end of the chunk at `start`: `start + chunk_size`, moved back to
      a sentence break by the inner loop while it lies inside the text. */
  method NextEnd(text: string, start: nat, chunkSize: int) returns (end: int)
    requires chunkSize > 100
    ensures end == ChunkEnd(text, start, chunkSize)
  {
    end := start + chunkSize;
    if end < |text| {
      end := FindBreak(text, end);
    }
  }

  /** `text[start:end].strip()` for the chunk end, the slice clipped to the text. */
  method Cut(text: string, start: nat, chunkSize: int, end: int) returns (chunk: string)
    requires chunkSize > 100 && start <= |text| && end == ChunkEnd(text, start, chunkSize)
    ensures chunk == ChunkAt(text, start, chunkSize)
  {
    var stop := if end <= |text| then end else |text|;
    chunk := Strip(text[start..stop]);
  }

  /** `chunk_text`'s outer loop. Its closing `if start >= len(text): break`
      repeats the loop condition, so the loop condition alone stands for it. */
  method ChunkText(text: string, chunkSize: int, overlap: int) returns (chunks: seq<string>)
    requires Advances(chunkSize, overlap)
    ensures chunks == Chunks(text, chunkSize, overlap)
    ensures |text| <= chunkSize ==> chunks == [text]
    ensures |text| > chunkSize ==> forall c :: c in chunks ==> IsChunk(chunkSize, c)
    ensures forall c :: c in chunks ==> Contains(text, c)
  {
    if |text| <= chunkSize {
      assert PieceAt(text, 0, text);
      return [text];
    }
    ghost var total := ChunksFrom(text, 0, chunkSize, overlap, []);
    chunks := [];
    var start: nat := 0;
    while start < |text|
      invariant ChunksFrom(text, start, chunkSize, overlap, chunks) == total
      decreases |text| - start
    {
      var end := NextEnd(text, start, chunkSize);
      var chunk := Cut(text, start, chunkSize, end);
      ChunkLoopStep(text, start, chunkSize, overlap, chunks, end, chunk, total);
      chunks := chunks + Kept(chunk);
      start := Back(end, overlap);
    }
    ChunksFromAreChunks(text, 0, chunkSize, overlap, []);
    AllChunksMembers(chunkSize, chunks);
    ChunksFromInText(text, 0, chunkSize, overlap, []);
  }
}
