/** `ChunkingService` (backend/src/services/chunking_service.py): cuts a text
    into overlapping windows of at most `chunkSize` characters, moving each
    cut back to just after the rightmost break character found in the last
    `chunkOverlap` characters of the window, and tags every non-empty window
    with a content-addressed id. */
module Chunking {
  import opened Text
  import opened Wrappers
  import opened MarkdownSections

  /** A `ContentChunk` as the chunker builds it. The embedding, metadata and
      creation time keep their defaults and are not modelled. */
  datatype ContentChunk = ContentChunk(
    id: string,
    text: string,
    sourceFile: string,
    sourceSection: string,
    chunkIndex: nat)

  /** The service's two settings. */
  datatype ChunkingService = ChunkingService(chunkSize: int, chunkOverlap: int) {
    /** What the chunker needs to terminate: a window of at least one
        character, and an overlap that does not reach back before the window. */
    predicate Valid() {
      1 <= chunkSize && chunkOverlap <= chunkSize
    }
  }

  /** The defaults of `ChunkingService.__init__`. */
  const DefaultService := ChunkingService(1000, 200)

  /** The value of `hashlib.md5(...).hexdigest()`: 32 hex digits. Which
      digits they are is left to the parameter that stands for the digest. */
  type Md5Hex = s: string | |s| == 32
    witness "00000000000000000000000000000000"

  // ---------------------------------------------------------------------------
  // Chunk ids
  // ---------------------------------------------------------------------------

  const ChunkPrefix := "chunk_"

  /** `_generate_chunk_id`: "chunk_", the first 12 hex digits of the digest of
      text + source file + index, "_", the index. `md5` stands for the digest. */
  function ChunkId(md5: string -> Md5Hex, text: string, sourceFile: string, index: nat): (id: string)
    ensures |id| == 19 + |NatToString(index)|
    ensures id[..6] == ChunkPrefix
  {
    ChunkPrefix + md5(text + sourceFile + NatToString(index))[..12] + "_" + NatToString(index)
  }

  /** The id is "chunk_", the first twelve digits of the digest, "_" and the
      decimal index, which can be read back from it. */
  lemma ChunkIdFormat(md5: string -> Md5Hex, text: string, sourceFile: string, index: nat)
    ensures var id := ChunkId(md5, text, sourceFile, index);
      && |id| == 19 + |NatToString(index)|
      && id[..6] == ChunkPrefix && id[18] == '_'
      && id[6..18] == md5(text + sourceFile + NatToString(index))[..12]
      && IsDigits(id[19..]) && ParseNat(id[19..]) == index
  {
    var digest := md5(text + sourceFile + NatToString(index));
    var id := ChunkId(md5, text, sourceFile, index);
    assert id[19..] == NatToString(index);
    assert id[6..18] == digest[..12];
    ParseNatToString(index);
  }

  /** Ids of chunks with different indices differ, whatever their texts. */
  lemma ChunkIdIndexInjective(md5: string -> Md5Hex, t1: string, f1: string, i1: nat,
                              t2: string, f2: string, i2: nat)
    requires ChunkId(md5, t1, f1, i1) == ChunkId(md5, t2, f2, i2)
    ensures i1 == i2
  {
    ChunkIdFormat(md5, t1, f1, i1);
    ChunkIdFormat(md5, t2, f2, i2);
  }

  // ---------------------------------------------------------------------------
  // Choosing the cut
  // ---------------------------------------------------------------------------

  /** `sub` occurs in `text` at `k`. */
  predicate MatchAt(text: string, sub: string, k: int) {
    0 <= k && k + |sub| <= |text| && text[k..k + |sub|] == sub
  }

  /** `text.rfind(sub, lo, hi)` for `0 <= lo` and `hi <= |text|`: the highest
      index of an occurrence lying wholly inside `[lo, hi)`, or -1 (see
      `RFindRightmost`). */
  function RFind(text: string, sub: string, lo: int, hi: int): (r: int)
    requires 0 <= lo && hi <= |text| && |sub| >= 1
    ensures r == -1 || (lo <= r && r + |sub| <= hi && text[r] == sub[0])
    decreases hi
  {
    if hi < lo + |sub| then -1
    else if text[hi - |sub|..hi] == sub then
      assert text[hi - |sub|] == text[hi - |sub|..hi][0];
      hi - |sub|
    else RFind(text, sub, lo, hi - 1)
  }

  /** `RFind` reports an occurrence, no occurrence inside `[lo, hi)` lies
      after it, and when it reports -1 there is none at all. */
  lemma {:induction false} RFindRightmost(text: string, sub: string, lo: int, hi: int)
    requires 0 <= lo && hi <= |text| && |sub| >= 1
    ensures RFind(text, sub, lo, hi) != -1 ==> MatchAt(text, sub, RFind(text, sub, lo, hi))
    ensures RFind(text, sub, lo, hi) == -1 ==>
      forall k :: lo <= k && k + |sub| <= hi ==> !MatchAt(text, sub, k)
    ensures RFind(text, sub, lo, hi) != -1 ==>
      forall k :: RFind(text, sub, lo, hi) < k && k + |sub| <= hi ==> !MatchAt(text, sub, k)
    decreases hi
  {
    if hi >= lo + |sub| && text[hi - |sub|..hi] != sub {
      RFindRightmost(text, sub, lo, hi - 1);
    }
  }

  /** The five characters a cut may follow. */
  predicate IsBreakChar(c: char) {
    c == '.' || c == '!' || c == '?' || c == '\n' || c == ' '
  }

  /** The six probes of `chunk_text`, in the source's order. */
  function BreakPoints(text: string, lo: int, hi: int): (bps: seq<int>)
    requires 0 <= lo && hi <= |text|
    ensures |bps| == 6
  {
    [RFind(text, ".", lo, hi), RFind(text, "!", lo, hi), RFind(text, "?", lo, hi),
     RFind(text, "\n\n", lo, hi), RFind(text, "\n", lo, hi), RFind(text, " ", lo, hi)]
  }

  /** Each probe reports -1 or the position of a break character inside `[lo, hi)`. */
  lemma BreakPointsInWindow(text: string, lo: int, hi: int)
    requires 0 <= lo && hi <= |text|
    ensures forall i :: 0 <= i < 6 ==>
      (BreakPoints(text, lo, hi)[i] == -1
       || (lo <= BreakPoints(text, lo, hi)[i] < hi && IsBreakChar(text[BreakPoints(text, lo, hi)[i]])))
  {
  }

  /** `a` is `b` with some elements left out and the others kept in order. */
  predicate SubsequenceOf(a: seq<int>, b: seq<int>)
    decreases |b|
  {
    if a == [] then true
    else if b == [] then false
    else if a[0] == b[0] then SubsequenceOf(a[1..], b[1..])
    else SubsequenceOf(a, b[1..])
  }

  /** `[bp for bp in bps if bp != -1 and bp <= end]`: the probes that found
      something at or before `end`, in probe order. */
  function ValidBreaks(bps: seq<int>, end: int): (vs: seq<int>)
    ensures |vs| <= |bps|
    ensures forall v :: v in vs ==> v != -1 && v <= end
    ensures SubsequenceOf(vs, bps)
  {
    if |bps| == 0 then []
    else
      var rest := ValidBreaks(bps[1..], end);
      if bps[0] != -1 && bps[0] <= end then
        assert ([bps[0]] + rest)[1..] == rest;
        [bps[0]] + rest
      else
        assert rest != [] ==> rest[0] in rest;
        rest
  }

  /** The filter keeps exactly the hits at or before `end`. */
  lemma {:induction false} ValidBreaksMembers(bps: seq<int>, end: int)
    ensures forall v :: v in ValidBreaks(bps, end) <==> v in bps && v != -1 && v <= end
  {
    if |bps| > 0 {
      ValidBreaksMembers(bps[1..], end);
      assert forall v :: v in bps <==> v == bps[0] || v in bps[1..];
    }
  }

  /** Python's `max` of a non-empty list. */
  function MaxOf(s: seq<int>): (m: int)
    requires |s| > 0
  {
    if |s| == 1 then s[0]
    else
      var m := MaxOf(s[1..]);
      if s[0] > m then s[0] else m
  }

  /** `max` returns an element no smaller than any other. */
  lemma {:induction false} MaxOfIsMax(s: seq<int>)
    requires |s| > 0
    ensures MaxOf(s) in s && forall x :: x in s ==> x <= MaxOf(s)
  {
    if |s| > 1 {
      MaxOfIsMax(s[1..]);
      assert forall x :: x in s ==> x == s[0] || x in s[1..];
    }
  }

  /** Lines 38-51 for a window ending at `end < |text|`: just after the
      furthest probe hit in `[lo, end)`, or `end` when there is none. */
  function ProbedCut(text: string, lo: int, end: int): (cut: int)
    requires 0 <= lo && end <= |text|
    ensures cut == end || lo < cut <= end
  {
    var valid := ValidBreaks(BreakPoints(text, lo, end), end);
    if valid != [] then
      BreakPointsInWindow(text, lo, end);
      ValidBreaksMembers(BreakPoints(text, lo, end), end);
      MaxOfIsMax(valid);
      MaxOf(valid) + 1
    else end
  }

  /** Where the window starting at `start` ends: just after the rightmost
      break character among the last `overlap` characters of a window that
      is not the last one, otherwise at `start + size`. */
  function Cut(text: string, start: int, size: int, overlap: int): (cut: int)
    requires 0 <= start < |text| && 1 <= size && overlap <= size
    ensures start < cut <= start + size
    ensures cut == start + size || start + size - overlap < cut
  {
    var end := start + size;
    if end < |text| then WindowCut(text, end - overlap, end) else end
  }

  /** A window that is not the last one is cut by `WindowCut`. */
  lemma CutInWindow(text: string, start: int, size: int, overlap: int, lo: int, hi: int)
    requires 0 <= start < |text| && 1 <= size && overlap <= size
    requires hi == start + size < |text| && lo == hi - overlap
    ensures Cut(text, start, size, overlap) == WindowCut(text, lo, hi)
  {
  }

  /** Reference definition of the cut inside a window whose break search
      covers `[lo, hi)`: just after its rightmost break character, or `hi`.
      `CutPlacement` shows that the source's six probes compute it. */
  function WindowCut(text: string, lo: int, hi: int): (cut: int)
    requires 0 <= lo && hi <= |text|
    ensures cut == hi || lo < cut <= hi
  {
    match RightmostBreak(text, lo, hi)
    case Some(k) => k + 1
    case None => hi
  }

  /** Reference definition: the rightmost break character in `[lo, hi)` (see
      `RightmostBreakIsRightmost`). */
  function RightmostBreak(text: string, lo: int, hi: int): (k: Option<int>)
    requires 0 <= lo && hi <= |text|
    ensures k.Some? ==> lo <= k.value < hi && IsBreakChar(text[k.value])
    decreases hi
  {
    if hi <= lo then None
    else if IsBreakChar(text[hi - 1]) then Some(hi - 1)
    else RightmostBreak(text, lo, hi - 1)
  }

  /** No break character follows the one `RightmostBreak` finds, and when it
      finds none the window has none. */
  lemma {:induction false} RightmostBreakIsRightmost(text: string, lo: int, hi: int)
    requires 0 <= lo && hi <= |text|
    ensures RightmostBreak(text, lo, hi).Some? ==>
      forall j :: RightmostBreak(text, lo, hi).value < j < hi ==> !IsBreakChar(text[j])
    ensures RightmostBreak(text, lo, hi).None? ==> forall j :: lo <= j < hi ==> !IsBreakChar(text[j])
    decreases hi
  {
    if lo < hi && !IsBreakChar(text[hi - 1]) {
      RightmostBreakIsRightmost(text, lo, hi - 1);
    }
  }

  /** A single-character probe finds exactly that character. */
  lemma MatchAtChar(text: string, c: char, k: int)
    requires 0 <= k < |text|
    ensures MatchAt(text, [c], k) <==> text[k] == c
  {
    if text[k] == c {
      assert text[k..k + 1] == [c];
    }
  }

  /** The probe for the break character at the rightmost break finds it. */
  lemma ProbeHitsRightmost(text: string, c: char, lo: int, hi: int, k: int)
    requires 0 <= lo <= k < hi <= |text| && text[k] == c && IsBreakChar(c)
    requires forall j :: k < j < hi ==> !IsBreakChar(text[j])
    ensures RFind(text, [c], lo, hi) == k
  {
    var r := RFind(text, [c], lo, hi);
    RFindRightmost(text, [c], lo, hi);
    MatchAtChar(text, c, k);
    if r != -1 {
      MatchAtChar(text, c, r);
    }
  }

  /** When every hit is at most `k` and `k` is one of them, the maximum of
      the valid hits is `k`. */
  lemma MaxOfValidBreaks(bps: seq<int>, end: int, k: int)
    requires k in bps && k != -1 && k <= end
    requires forall i :: 0 <= i < |bps| ==> bps[i] == -1 || bps[i] <= k
    ensures ValidBreaks(bps, end) != [] && MaxOf(ValidBreaks(bps, end)) == k
  {
    var valid := ValidBreaks(bps, end);
    ValidBreaksMembers(bps, end);
    assert k in valid;
    var m := MaxOf(valid);
    MaxOfIsMax(valid);
    assert m in bps && m != -1;
  }

  /** When no probe hits, there is no valid break. */
  lemma {:induction false} NoValidBreaks(bps: seq<int>, end: int)
    requires forall i :: 0 <= i < |bps| ==> bps[i] == -1
    ensures ValidBreaks(bps, end) == []
  {
    if |bps| > 0 {
      NoValidBreaks(bps[1..], end);
    }
  }

  /** The rightmost break character is found by the probe for its own character. */
  lemma RightmostBreakProbed(text: string, lo: int, hi: int, k: int)
    requires 0 <= lo && hi <= |text|
    requires RightmostBreak(text, lo, hi) == Some(k)
    ensures k in BreakPoints(text, lo, hi)
  {
    var bps := BreakPoints(text, lo, hi);
    RightmostBreakIsRightmost(text, lo, hi);
    var c := text[k];
    ProbeHitsRightmost(text, c, lo, hi, k);
    if c == '.' {
      assert [c] == "." && bps[0] == k;
    } else if c == '!' {
      assert [c] == "!" && bps[1] == k;
    } else if c == '?' {
      assert [c] == "?" && bps[2] == k;
    } else if c == '\n' {
      assert [c] == "\n" && bps[4] == k;
    } else {
      assert [c] == " " && bps[5] == k;
    }
  }

  /** With a rightmost break character at `k`, the probes put the cut at `k + 1`. */
  lemma ProbedCutAtBreak(text: string, lo: int, hi: int, k: int)
    requires 0 <= lo && hi <= |text|
    requires RightmostBreak(text, lo, hi) == Some(k)
    ensures ProbedCut(text, lo, hi) == k + 1
  {
    var bps := BreakPoints(text, lo, hi);
    RightmostBreakProbed(text, lo, hi, k);
    RightmostBreakIsRightmost(text, lo, hi);
    BreakPointsInWindow(text, lo, hi);
    assert forall i :: 0 <= i < |bps| ==> bps[i] == -1 || bps[i] <= k;
    MaxOfValidBreaks(bps, hi, k);
  }

  /** With no break character in the window, the probes leave the cut at `hi`. */
  lemma ProbedCutNoBreak(text: string, lo: int, hi: int)
    requires 0 <= lo && hi <= |text|
    requires RightmostBreak(text, lo, hi).None?
    ensures ProbedCut(text, lo, hi) == hi
  {
    var bps := BreakPoints(text, lo, hi);
    RightmostBreakIsRightmost(text, lo, hi);
    BreakPointsInWindow(text, lo, hi);
    NoValidBreaks(bps, hi);
  }

  /** The source's six probes and `max(...) + 1` put the cut right after the
      rightmost break character in the window: they compute `WindowCut`. */
  lemma CutPlacement(text: string, lo: int, hi: int)
    requires 0 <= lo && hi <= |text|
    ensures ProbedCut(text, lo, hi) == WindowCut(text, lo, hi)
  {
    match RightmostBreak(text, lo, hi)
    case Some(k) => ProbedCutAtBreak(text, lo, hi, k);
    case None => ProbedCutNoBreak(text, lo, hi);
  }

  /** The "\n\n" probe never wins: whenever it finds something, the "\n" probe
      finds a later position, since the second newline of the pair is in range. */
  lemma DoubleNewlineDominated(text: string, lo: int, hi: int)
    requires 0 <= lo && hi <= |text|
    ensures RFind(text, "\n\n", lo, hi) != -1 ==> RFind(text, "\n\n", lo, hi) < RFind(text, "\n", lo, hi)
  {
    var p := RFind(text, "\n\n", lo, hi);
    RFindRightmost(text, "\n\n", lo, hi);
    if p != -1 {
      assert text[p..p + 2] == "\n\n";
      assert text[p + 1] == text[p..p + 2][1];
      MatchAtChar(text, '\n', p + 1);
      RFindRightmost(text, "\n", lo, hi);
      assert "\n" == ['\n'];
    }
  }

  // ---------------------------------------------------------------------------
  // Advancing the cursor
  // ---------------------------------------------------------------------------

  /** Lines 68-70 as written: `start = end - overlap`, then `start = end` when
      `start == end`, which it already is. */
  function AdvanceAsWritten(end: int, overlap: int): (next: int)
    ensures next == end - overlap
  {
    var next := end - overlap;
    if next == end then end else next
  }

  /** The evidently intended guard: when stepping back by the overlap would
      not move past the old start, continue from the cut instead. */
  function Advance(start: int, end: int, overlap: int): (next: int)
    requires start < end
    ensures start < next
    ensures next == end - overlap || next == end
    ensures start < end - overlap ==> next == end - overlap
  {
    var next := end - overlap;
    if next <= start then end else next
  }

  /** With `2 * overlap <= size` the written guard is never needed: stepping
      back by the overlap always moves past the old start, so the corrected and
      the written update agree. */
  lemma AdvanceAgrees(text: string, start: int, size: int, overlap: int)
    requires 0 <= start < |text| && 1 <= size && 2 * overlap <= size
    ensures start < AdvanceAsWritten(Cut(text, start, size, overlap), overlap)
    ensures AdvanceAsWritten(Cut(text, start, size, overlap), overlap)
      == Advance(start, Cut(text, start, size, overlap), overlap)
  {
  }

  /** With chunk size 5 and overlap 5, a text of ten letters has no break
      character, so the first cut is at 5 and the written update moves the
      cursor back to 0: the source's loop repeats the first window forever. */
  lemma AsWrittenStalls()
    ensures Cut("abcdefghij", 0, 5, 5) == 5
    ensures AdvanceAsWritten(Cut("abcdefghij", 0, 5, 5), 5) == 0
  {
    var text := "abcdefghij";
    var rb := RightmostBreak(text, 0, 5);
    assert !IsBreakChar(text[4]) && !IsBreakChar(text[3]) && !IsBreakChar(text[2]);
    assert !IsBreakChar(text[1]) && !IsBreakChar(text[0]);
    assert rb.None?;
  }

  /** A break character at `k` with none after it up to `hi` is the one
      `RightmostBreak` finds in any range `[lo, hi)` that holds `k`. */
  lemma {:induction false} RightmostBreakAt(text: string, lo: int, hi: int, k: int)
    requires 0 <= lo <= k < hi <= |text| && IsBreakChar(text[k])
    requires forall j :: k < j < hi ==> !IsBreakChar(text[j])
    ensures RightmostBreak(text, lo, hi) == Some(k)
    decreases hi
  {
    if hi - 1 != k {
      RightmostBreakAt(text, lo, hi - 1, k);
    }
  }

  /** Within the settings the model admits, the written update fails to
      progress only on runs that never end: when it steps back to a
      non-negative `back` at or before the old start, the window at `back`
      is cut at the same place again, so the loop returns to `back` for ever.
      The corrected update differs from the written one only on such runs. */
  lemma AsWrittenRepeats(text: string, start: int, size: int, overlap: int, end: int, back: int)
    requires 0 <= start < |text| && 1 <= size && overlap <= size
    requires end == Cut(text, start, size, overlap) && back == AdvanceAsWritten(end, overlap)
    requires 0 <= back <= start
    ensures back < |text|
    ensures Cut(text, back, size, overlap) == end
    ensures AdvanceAsWritten(Cut(text, back, size, overlap), overlap) == back
  {
    var hi := start + size;
    if hi < |text| {
      var lo := hi - overlap;
      match RightmostBreak(text, lo, hi)
      case None =>
      case Some(k) =>
        assert end == k + 1;
        RightmostBreakIsRightmost(text, lo, hi);
        var hi' := back + size;
        var lo' := hi' - overlap;
        assert 0 <= lo' <= k < hi' <= hi;
        RightmostBreakAt(text, lo', hi', k);
        assert Cut(text, back, size, overlap) == WindowCut(text, lo', hi');
    }
  }

  // ---------------------------------------------------------------------------
  // The chunking loop
  // ---------------------------------------------------------------------------

  function Min(a: int, b: int): int {
    if a <= b then a else b
  }

  /** `text[start:end].strip()`, the end clamped to the text as Python does. */
  function Piece(text: string, start: int, end: int): (piece: string)
    requires 0 <= start <= end
    requires start <= |text|
    ensures |piece| <= Min(end, |text|) - start
  {
    Strip(text[start..Min(end, |text|)])
  }

  /** What one window contributes: its chunk when the stripped slice is
      non-empty (lines 55-65), nothing otherwise. */
  function Emitted(md5: string -> Md5Hex, piece: string, sourceFile: string, section: string,
                   index: nat): (cs: seq<ContentChunk>)
    ensures |cs| <= 1
    ensures cs != [] <==> piece != ""
    ensures forall c :: c in cs ==>
      c.text == piece && c.sourceFile == sourceFile && c.sourceSection == section && c.chunkIndex == index
  {
    if piece != "" then [ContentChunk(ChunkId(md5, piece, sourceFile, index), piece, sourceFile, section, index)]
    else []
  }

  /** The chunks `chunk_text` emits from cursor `start` on, the next window
      being number `index`. */
  function ChunksFrom(svc: ChunkingService, md5: string -> Md5Hex, text: string,
                      sourceFile: string, section: string, start: nat, index: nat): (cs: seq<ContentChunk>)
    requires svc.Valid()
    ensures start >= |text| ==> cs == []
    ensures start < |text| ==> |cs| <= |text| - start
    decreases |text| - start
  {
    if start >= |text| then []
    else
      var end := Cut(text, start, svc.chunkSize, svc.chunkOverlap);
      Emitted(md5, Piece(text, start, end), sourceFile, section, index)
        + ChunksFrom(svc, md5, text, sourceFile, section, Advance(start, end, svc.chunkOverlap), index + 1)
  }

  /** One turn of the loop: the window at `start`, then the rest. */
  lemma ChunksFromStep(svc: ChunkingService, md5: string -> Md5Hex, text: string,
                       sourceFile: string, section: string, start: nat, index: nat, end: int)
    requires svc.Valid() && start < |text|
    requires end == Cut(text, start, svc.chunkSize, svc.chunkOverlap)
    ensures ChunksFrom(svc, md5, text, sourceFile, section, start, index)
      == Emitted(md5, Piece(text, start, end), sourceFile, section, index)
         + ChunksFrom(svc, md5, text, sourceFile, section, Advance(start, end, svc.chunkOverlap), index + 1)
  {
  }

  lemma ConcatAssoc<T>(a: seq<T>, b: seq<T>, c: seq<T>)
    ensures (a + b) + c == a + (b + c)
  {
  }

  /** One turn of `chunk_text`'s loop moves one window's chunk from what is
      left to what has been emitted. */
  lemma ChunkTextStep(svc: ChunkingService, md5: string -> Md5Hex, text: string,
                      sourceFile: string, section: string, start: nat, index: nat, end: int,
                      piece: string, before: seq<ContentChunk>, after: seq<ContentChunk>, next: int)
    requires svc.Valid() && start < |text|
    requires end == Cut(text, start, svc.chunkSize, svc.chunkOverlap)
    requires piece == Piece(text, start, end)
    requires after == before + Emitted(md5, piece, sourceFile, section, index)
    requires next == Advance(start, end, svc.chunkOverlap)
    ensures start < next
    ensures after + ChunksFrom(svc, md5, text, sourceFile, section, next, index + 1)
      == before + ChunksFrom(svc, md5, text, sourceFile, section, start, index)
  {
    ChunksFromStep(svc, md5, text, sourceFile, section, start, index, end);
    ConcatAssoc(before, Emitted(md5, piece, sourceFile, section, index),
                ChunksFrom(svc, md5, text, sourceFile, section, next, index + 1));
  }

  /** The chunks of `chunk_text(text, source_file, source_section)`. */
  function Chunks(svc: ChunkingService, md5: string -> Md5Hex, text: string,
                  sourceFile: string, section: string): (cs: seq<ContentChunk>)
    requires svc.Valid()
    ensures |cs| <= |text|
  {
    ChunksFrom(svc, md5, text, sourceFile, section, 0, 0)
  }

  /** Lines 36-51 of `chunk_text`: where the window starting at `start` ends. */
  method WindowEnd(text: string, start: int, size: int, overlap: int) returns (end: int)
    requires 0 <= start < |text| && 1 <= size && overlap <= size
    ensures end == Cut(text, start, size, overlap)
  {
    end := start + size;
    if end < |text| {
      var searchStart := end - overlap;
      ghost var windowEnd := end;
      var breakPoints := BreakPoints(text, searchStart, end);
      var validBreaks := ValidBreaks(breakPoints, end);
      if validBreaks != [] {
        end := MaxOf(validBreaks) + 1;
      }
      assert end == ProbedCut(text, searchStart, windowEnd);
      CutPlacement(text, searchStart, windowEnd);
      CutInWindow(text, start, size, overlap, searchStart, windowEnd);
    }
  }

  /** `chunk_text`. */
  method ChunkText(svc: ChunkingService, md5: string -> Md5Hex, text: string,
                   sourceFile: string, section: string) returns (chunks: seq<ContentChunk>)
    requires svc.Valid()
    ensures chunks == Chunks(svc, md5, text, sourceFile, section)
  {
    if text == "" {
      return [];
    }
    chunks := [];
    var start: nat := 0;
    var index: nat := 0;
    while start < |text|
      invariant chunks + ChunksFrom(svc, md5, text, sourceFile, section, start, index)
        == Chunks(svc, md5, text, sourceFile, section)
      decreases |text| - start
    {
      var end := WindowEnd(text, start, svc.chunkSize, svc.chunkOverlap);
      var piece := Strip(text[start..Min(end, |text|)]);
      ghost var before := chunks;
      if piece != "" {
        var id := ChunkId(md5, piece, sourceFile, index);
        chunks := chunks + [ContentChunk(id, piece, sourceFile, section, index)];
      }
      var next := end - svc.chunkOverlap;
      if next <= start {
        next := end;
      }
      ChunkTextStep(svc, md5, text, sourceFile, section, start, index, end, piece, before, chunks, next);
      start := next;
      index := index + 1;
    }
  }

  /** `piece` is the stripped slice of some window of at most `size`
      characters of `text`. */
  ghost predicate FromWindow(text: string, piece: string, size: int) {
    exists s, e :: 0 <= s < e <= |text| && e - s <= size && piece == Strip(text[s..e])
  }

  /** What every chunk of one `chunk_text` call carries. */
  ghost predicate WellFormed(c: ContentChunk, md5: string -> Md5Hex, text: string,
                             sourceFile: string, section: string, size: int, minIndex: nat) {
    && c.text != ""
    && FromWindow(text, c.text, size)
    && c.sourceFile == sourceFile
    && c.sourceSection == section
    && c.id == ChunkId(md5, c.text, sourceFile, c.chunkIndex)
    && minIndex <= c.chunkIndex
  }

  predicate IncreasingIndices(cs: seq<ContentChunk>) {
    forall i, j :: 0 <= i < j < |cs| ==> cs[i].chunkIndex < cs[j].chunkIndex
  }

  /** Every chunk of `cs` is well formed and the indices strictly increase. */
  ghost predicate AllWellFormed(cs: seq<ContentChunk>, md5: string -> Md5Hex, text: string,
                                sourceFile: string, section: string, size: int, minIndex: nat) {
    && (forall i :: 0 <= i < |cs| ==> WellFormed(cs[i], md5, text, sourceFile, section, size, minIndex))
    && IncreasingIndices(cs)
  }

  /** The chunk a window contributes, if any, is well formed and numbered `index`. */
  lemma EmittedWellFormed(md5: string -> Md5Hex, text: string, sourceFile: string, section: string,
                          size: int, start: int, end: int, index: nat)
    requires 0 <= start < |text| && start < end <= start + size
    ensures |Emitted(md5, Piece(text, start, end), sourceFile, section, index)| <= 1
    ensures forall c :: c in Emitted(md5, Piece(text, start, end), sourceFile, section, index) ==>
      c.chunkIndex == index
    ensures AllWellFormed(Emitted(md5, Piece(text, start, end), sourceFile, section, index),
                          md5, text, sourceFile, section, size, index)
  {
    var piece := Piece(text, start, end);
    if piece != "" {
      var e := Min(end, |text|);
      assert FromWindow(text, piece, size) by {
        assert piece == Strip(text[start..e]);
      }
    }
  }

  /** Putting a chunk numbered `index` in front of well-formed chunks numbered
      from `index + 1` keeps them well formed. */
  lemma ConsWellFormed(e: seq<ContentChunk>, rest: seq<ContentChunk>, md5: string -> Md5Hex,
                       text: string, sourceFile: string, section: string, size: int, index: nat)
    requires |e| <= 1 && forall c :: c in e ==> c.chunkIndex == index
    requires AllWellFormed(e, md5, text, sourceFile, section, size, index)
    requires AllWellFormed(rest, md5, text, sourceFile, section, size, index + 1)
    ensures AllWellFormed(e + rest, md5, text, sourceFile, section, size, index)
  {
    var all := e + rest;
    forall i | 0 <= i < |all|
      ensures WellFormed(all[i], md5, text, sourceFile, section, size, index)
    {
      if i >= |e| { assert all[i] == rest[i - |e|]; }
    }
    forall i, j | 0 <= i < j < |all| ensures all[i].chunkIndex < all[j].chunkIndex {
      assert all[j] == rest[j - |e|];
      if i >= |e| { assert all[i] == rest[i - |e|]; } else { assert all[i] in e; }
    }
  }

  /** Every chunk is a non-empty stripped window of at most `chunkSize`
      characters, tagged with the caller's file and section and its own id,
      and the indices strictly increase. */
  lemma {:induction false} ChunksFromWellFormed(svc: ChunkingService, md5: string -> Md5Hex, text: string,
                                                sourceFile: string, section: string, start: nat, index: nat)
    requires svc.Valid()
    ensures AllWellFormed(ChunksFrom(svc, md5, text, sourceFile, section, start, index),
                          md5, text, sourceFile, section, svc.chunkSize, index)
    decreases |text| - start
  {
    if start < |text| {
      var end := Cut(text, start, svc.chunkSize, svc.chunkOverlap);
      var next := Advance(start, end, svc.chunkOverlap);
      ChunksFromStep(svc, md5, text, sourceFile, section, start, index, end);
      ChunksFromWellFormed(svc, md5, text, sourceFile, section, next, index + 1);
      EmittedWellFormed(md5, text, sourceFile, section, svc.chunkSize, start, end, index);
      ConsWellFormed(Emitted(md5, Piece(text, start, end), sourceFile, section, index),
                     ChunksFrom(svc, md5, text, sourceFile, section, next, index + 1),
                     md5, text, sourceFile, section, svc.chunkSize, index);
    }
  }

  /** An empty text has no chunks (lines 23-24). */
  lemma ChunksOfEmpty(svc: ChunkingService, md5: string -> Md5Hex, sourceFile: string, section: string)
    requires svc.Valid()
    ensures Chunks(svc, md5, "", sourceFile, section) == []
  {
  }

  /** A window that reaches the end of the text holds all of the rest of it. */
  lemma LastWindow(svc: ChunkingService, md5: string -> Md5Hex, text: string,
                   sourceFile: string, section: string, start: nat, index: nat, end: int, piece: string)
    requires svc.Valid() && end == start + svc.chunkSize && start < |text| <= end
    requires piece == Strip(text[start..])
    ensures ChunksFrom(svc, md5, text, sourceFile, section, start, index)
      == Emitted(md5, piece, sourceFile, section, index)
         + ChunksFrom(svc, md5, text, sourceFile, section, Advance(start, end, svc.chunkOverlap), index + 1)
  {
    ChunksFromStep(svc, md5, text, sourceFile, section, start, index, end);
    assert text[start..Min(end, |text|)] == text[start..];
  }

  /** When the cursor then moves past the end, that window is the last one. */
  lemma FinalWindow(svc: ChunkingService, md5: string -> Md5Hex, text: string,
                    sourceFile: string, section: string, start: nat, index: nat, end: int, piece: string)
    requires svc.Valid() && end == start + svc.chunkSize && start < |text| <= end
    requires piece == Strip(text[start..])
    requires Advance(start, end, svc.chunkOverlap) >= |text|
    ensures ChunksFrom(svc, md5, text, sourceFile, section, start, index)
      == Emitted(md5, piece, sourceFile, section, index)
  {
    LastWindow(svc, md5, text, sourceFile, section, start, index, end, piece);
    var e := Emitted(md5, piece, sourceFile, section, index);
    assert e + [] == e;
  }

  /** A text no longer than `chunkSize - chunkOverlap` fits one window, and
      the cursor then moves past its end: one chunk holding the stripped text
      when that is not empty, none otherwise. */
  lemma ShortTextOneChunk(svc: ChunkingService, md5: string -> Md5Hex, text: string,
                          sourceFile: string, section: string)
    requires svc.Valid() && 0 <= svc.chunkOverlap
    requires 0 < |text| <= svc.chunkSize - svc.chunkOverlap
    ensures Chunks(svc, md5, text, sourceFile, section) == Emitted(md5, Strip(text), sourceFile, section, 0)
  {
    var end := svc.chunkSize;
    assert text[0..] == text;
    FinalWindow(svc, md5, text, sourceFile, section, 0, 0, end, Strip(text));
  }

  /** A text a little longer than `chunkSize - chunkOverlap` but within
      `chunkSize` gives two windows: the whole text, then its tail from
      `second == chunkSize - chunkOverlap`, numbered 0 and 1. */
  lemma TwoWindows(svc: ChunkingService, md5: string -> Md5Hex, text: string,
                   sourceFile: string, section: string, second: nat)
    requires svc.Valid() && 0 <= svc.chunkOverlap && 2 * svc.chunkOverlap <= svc.chunkSize
    requires second == svc.chunkSize - svc.chunkOverlap < |text| <= svc.chunkSize
    ensures Chunks(svc, md5, text, sourceFile, section) ==
      Emitted(md5, Strip(text), sourceFile, section, 0)
      + Emitted(md5, Strip(text[second..]), sourceFile, section, 1)
  {
    var end := svc.chunkSize;
    var secondEnd := second + svc.chunkSize;
    var piece, secondPiece := Strip(text), Strip(text[second..]);
    assert text[0..] == text;
    LastTwoWindows(svc, md5, text, sourceFile, section, 0, 0, end, piece,
                   second, secondEnd, secondPiece, 1);
    assert ChunksFrom(svc, md5, text, sourceFile, section, 0, 0)
      == Emitted(md5, piece, sourceFile, section, 0) + Emitted(md5, secondPiece, sourceFile, section, 1);
  }

  /** Two windows that end the text: their chunks, numbered `index` and `index + 1`. */
  lemma LastTwoWindows(svc: ChunkingService, md5: string -> Md5Hex, text: string,
                       sourceFile: string, section: string, start: nat, index: nat, end: int, piece: string,
                       second: nat, secondEnd: int, secondPiece: string, secondIndex: nat)
    requires svc.Valid() && end == start + svc.chunkSize && start < |text| <= end
    requires piece == Strip(text[start..])
    requires second == Advance(start, end, svc.chunkOverlap) && second < |text|
    requires secondEnd == second + svc.chunkSize && secondPiece == Strip(text[second..])
    requires Advance(second, secondEnd, svc.chunkOverlap) >= |text| && secondIndex == index + 1
    ensures ChunksFrom(svc, md5, text, sourceFile, section, start, index)
      == Emitted(md5, piece, sourceFile, section, index)
         + Emitted(md5, secondPiece, sourceFile, section, secondIndex)
  {
    LastWindow(svc, md5, text, sourceFile, section, start, index, end, piece);
    FinalWindow(svc, md5, text, sourceFile, section, second, secondIndex, secondEnd, secondPiece);
  }

  /** "a   b" with windows of 2 and no overlap: the middle window is all
      spaces and is skipped, yet it uses up index 1. */
  lemma IndexGap(md5: string -> Md5Hex)
    ensures |Chunks(ChunkingService(2, 0), md5, "a   b", "f", "s")| == 2
    ensures Chunks(ChunkingService(2, 0), md5, "a   b", "f", "s")[0].chunkIndex == 0
    ensures Chunks(ChunkingService(2, 0), md5, "a   b", "f", "s")[1].chunkIndex == 2
  {
    var svc := ChunkingService(2, 0);
    var text := "a   b";
    assert Cut(text, 0, 2, 0) == 2;
    assert Cut(text, 2, 2, 0) == 4;
    assert Cut(text, 4, 2, 0) == 6;
    assert Piece(text, 0, 2) == "a" by { assert text[0..2] == "a "; }
    assert Piece(text, 2, 4) == "" by { assert text[2..4] == "  "; }
    assert Piece(text, 4, 6) == "b" by { assert text[4..5] == "b"; }
  }

  /** "Sentence one. Sentence two. Sentence three." with size 20 and overlap
      5: the probes search positions 15 to 19 ("enten"), which hold no break
      character, so the first window is cut at 20, inside the word "Sentence". */
  lemma SentenceWindowHardCut()
    ensures Cut("Sentence one. Sentence two. Sentence three.", 0, 20, 5) == 20
    ensures Piece("Sentence one. Sentence two. Sentence three.", 0, 20) == "Sentence one. Senten"
  {
    var text := "Sentence one. Sentence two. Sentence three.";
    assert !IsBreakChar(text[19]) && !IsBreakChar(text[18]) && !IsBreakChar(text[17]);
    assert !IsBreakChar(text[16]) && !IsBreakChar(text[15]);
    assert RightmostBreak(text, 15, 20).None?;
    SentenceFirstPiece(text);
  }

  lemma SentenceFirstPiece(text: string)
    requires text == "Sentence one. Sentence two. Sentence three."
    ensures Piece(text, 0, 20) == "Sentence one. Senten"
  {
    var window := text[0..20];
    assert window == "Sentence one. Senten";
    assert window[0] == 'S' && window[19] == 'n';
    StripUnchanged(window);
  }

  // ---------------------------------------------------------------------------
  // The windows of a run
  // ---------------------------------------------------------------------------

  /** One window of `chunk_text`: the slice `text[lo:hi]` that is stripped. */
  datatype Window = Window(lo: int, hi: int)

  /** The windows `chunk_text` visits from cursor `start` on, in order. */
  function Windows(svc: ChunkingService, text: string, start: nat): (ws: seq<Window>)
    requires svc.Valid()
    ensures forall i :: 0 <= i < |ws| ==> start <= ws[i].lo < ws[i].hi && ws[i].lo < |text|
    decreases |text| - start
  {
    if start >= |text| then []
    else
      var end := Cut(text, start, svc.chunkSize, svc.chunkOverlap);
      [Window(start, end)] + Windows(svc, text, Advance(start, end, svc.chunkOverlap))
  }

  /** With a non-negative overlap the cursor never moves past the cut, and it
      steps back from the cut by at most the overlap. */
  lemma AdvanceWithinWindow(start: int, end: int, overlap: int)
    requires start < end && 0 <= overlap
    ensures Advance(start, end, overlap) <= end
    ensures end - Advance(start, end, overlap) <= overlap
  {
  }

  /** The run starts at the cursor, each window ends at its `Cut`, each next
      window starts where `Advance` puts the cursor, and after the last one
      the cursor is past the text. */
  lemma {:induction false} WindowsChain(svc: ChunkingService, text: string, start: nat)
    requires svc.Valid()
    ensures var ws := Windows(svc, text, start);
      && (start < |text| <==> |ws| > 0)
      && (|ws| > 0 ==> ws[0].lo == start)
      && (forall i :: 0 <= i < |ws| ==> ws[i].hi == Cut(text, ws[i].lo, svc.chunkSize, svc.chunkOverlap))
      && (forall i :: 0 <= i < |ws| - 1 ==> ws[i + 1].lo == Advance(ws[i].lo, ws[i].hi, svc.chunkOverlap))
      && (|ws| > 0 ==> Advance(ws[|ws| - 1].lo, ws[|ws| - 1].hi, svc.chunkOverlap) >= |text|)
    decreases |text| - start
  {
    if start < |text| {
      var end := Cut(text, start, svc.chunkSize, svc.chunkOverlap);
      var next := Advance(start, end, svc.chunkOverlap);
      var rest := Windows(svc, text, next);
      var ws := Windows(svc, text, start);
      assert ws == [Window(start, end)] + rest;
      WindowsChain(svc, text, next);
      forall i | 0 < i < |ws| ensures ws[i] == rest[i - 1] { }
    }
  }

  /** With a non-negative overlap the windows tile the text: they move
      forward, each starts at or before the end of the one before, two
      neighbours share at most `chunkOverlap` characters, and the last one
      reaches the end of the text. */
  lemma WindowsTile(svc: ChunkingService, text: string)
    requires svc.Valid() && 0 <= svc.chunkOverlap
    ensures var ws := Windows(svc, text, 0);
      && (|text| > 0 ==> |ws| > 0 && ws[0].lo == 0 && ws[|ws| - 1].hi >= |text|)
      && (forall i :: 0 <= i < |ws| - 1 ==>
            ws[i].lo < ws[i + 1].lo <= ws[i].hi && ws[i].hi - ws[i + 1].lo <= svc.chunkOverlap)
  {
    var ws := Windows(svc, text, 0);
    WindowsChain(svc, text, 0);
    forall i | 0 <= i < |ws| - 1
      ensures ws[i].lo < ws[i + 1].lo <= ws[i].hi && ws[i].hi - ws[i + 1].lo <= svc.chunkOverlap
    {
      AdvanceWithinWindow(ws[i].lo, ws[i].hi, svc.chunkOverlap);
    }
    if |ws| > 0 {
      var last := ws[|ws| - 1];
      AdvanceWithinWindow(last.lo, last.hi, svc.chunkOverlap);
    }
  }

  /** With a non-negative overlap every position of the text from the cursor
      on lies in some window of the run. */
  lemma {:induction false} WindowsCover(svc: ChunkingService, text: string, start: nat, k: int)
    requires svc.Valid() && 0 <= svc.chunkOverlap && start <= k < |text|
    ensures exists i ::
              0 <= i < |Windows(svc, text, start)| &&
              Windows(svc, text, start)[i].lo <= k < Windows(svc, text, start)[i].hi
    decreases |text| - start
  {
    var ws := Windows(svc, text, start);
    var end := Cut(text, start, svc.chunkSize, svc.chunkOverlap);
    var next := Advance(start, end, svc.chunkOverlap);
    var rest := Windows(svc, text, next);
    assert ws == [Window(start, end)] + rest;
    if k < end {
      assert ws[0].lo <= k < ws[0].hi;
    } else {
      AdvanceWithinWindow(start, end, svc.chunkOverlap);
      WindowsCover(svc, text, next, k);
      var i :| 0 <= i < |rest| && rest[i].lo <= k < rest[i].hi;
      assert ws[i + 1] == rest[i];
    }
  }

  /** Windows whose slices `Piece` can take. */
  predicate WindowsIn(text: string, ws: seq<Window>) {
    forall i :: 0 <= i < |ws| ==> 0 <= ws[i].lo <= ws[i].hi && ws[i].lo <= |text|
  }

  /** The stripped slices of a list of windows. */
  function Pieces(text: string, ws: seq<Window>): (ps: seq<string>)
    requires WindowsIn(text, ws)
    ensures |ps| == |ws|
    ensures forall i :: 0 <= i < |ws| ==> ps[i] == Piece(text, ws[i].lo, ws[i].hi)
  {
    seq(|ws|, i requires 0 <= i < |ws| => Piece(text, ws[i].lo, ws[i].hi))
  }

  /** The chunks a list of stripped slices gives, the first numbered `index`. */
  function EmitPieces(md5: string -> Md5Hex, pieces: seq<string>, sourceFile: string, section: string,
                      index: nat): seq<ContentChunk>
    decreases |pieces|
  {
    if pieces == [] then []
    else Emitted(md5, pieces[0], sourceFile, section, index) + EmitPieces(md5, pieces[1..], sourceFile, section, index + 1)
  }

  /** The run from a cursor emits exactly its windows' chunks, window `i`
      being numbered `index + i`. */
  lemma {:induction false} ChunksFromWindows(svc: ChunkingService, md5: string -> Md5Hex, text: string,
                                             sourceFile: string, section: string, start: nat, index: nat)
    requires svc.Valid()
    ensures WindowsIn(text, Windows(svc, text, start))
    ensures ChunksFrom(svc, md5, text, sourceFile, section, start, index)
      == EmitPieces(md5, Pieces(text, Windows(svc, text, start)), sourceFile, section, index)
    decreases |text| - start
  {
    if start < |text| {
      var end := Cut(text, start, svc.chunkSize, svc.chunkOverlap);
      var next := Advance(start, end, svc.chunkOverlap);
      var ws := Windows(svc, text, start);
      var ps := Pieces(text, ws);
      assert ws[1..] == Windows(svc, text, next);
      assert ps[1..] == Pieces(text, ws[1..]);
      ChunksFromWindows(svc, md5, text, sourceFile, section, next, index + 1);
      ChunksFromStep(svc, md5, text, sourceFile, section, start, index, end);
    }
  }

  /** Whatever the slice at place `i` emits is among the chunks of the list,
      numbered `index + i`. */
  lemma {:induction false} EmitPiecesHas(md5: string -> Md5Hex, pieces: seq<string>, sourceFile: string,
                                         section: string, index: nat, i: nat)
    requires i < |pieces|
    ensures forall c :: c in Emitted(md5, pieces[i], sourceFile, section, index + i) ==>
      c in EmitPieces(md5, pieces, sourceFile, section, index)
    decreases i
  {
    if i > 0 {
      assert pieces[1..][i - 1] == pieces[i];
      EmitPiecesHas(md5, pieces[1..], sourceFile, section, index + 1, i - 1);
    }
  }

  /** A slice holding a non-space character strips to something non-empty. */
  lemma PieceKeepsNonSpace(text: string, lo: int, hi: int, k: int)
    requires 0 <= lo <= k < hi && k < |text|
    requires !IsSpace(text[k])
    ensures Piece(text, lo, hi) != ""
  {
    var slice := text[lo..Min(hi, |text|)];
    assert slice[k - lo] == text[k];
    StripShape(slice);
  }

  /** With a non-negative overlap `chunk_text` loses no text: every
      non-whitespace character lies in the window of some chunk, whose text
      is that window stripped. */
  lemma NoTextLost(svc: ChunkingService, md5: string -> Md5Hex, text: string,
                   sourceFile: string, section: string, k: int)
    requires svc.Valid() && 0 <= svc.chunkOverlap && 0 <= k < |text| && !IsSpace(text[k])
    ensures exists c ::
              c in Chunks(svc, md5, text, sourceFile, section) &&
              c.chunkIndex < |Windows(svc, text, 0)| &&
              Windows(svc, text, 0)[c.chunkIndex].lo <= k < Windows(svc, text, 0)[c.chunkIndex].hi &&
              c.text == Piece(text, Windows(svc, text, 0)[c.chunkIndex].lo, Windows(svc, text, 0)[c.chunkIndex].hi)
  {
    var ws := Windows(svc, text, 0);
    WindowsCover(svc, text, 0, k);
    var i :| 0 <= i < |ws| && ws[i].lo <= k < ws[i].hi;
    PieceKeepsNonSpace(text, ws[i].lo, ws[i].hi, k);
    ChunksFromWindows(svc, md5, text, sourceFile, section, 0, 0);
    var pieces := Pieces(text, ws);
    EmitPiecesHas(md5, pieces, sourceFile, section, 0, i);
    var piece := pieces[i];
    var emitted := Emitted(md5, piece, sourceFile, section, i);
    var c := emitted[0];
    assert c in emitted;
    assert c in Chunks(svc, md5, text, sourceFile, section);
    assert c.chunkIndex == i && c.text == piece;
  }

  /** A negative overlap is accepted and skips text: on "abcdef" with size 2
      and overlap -1 the first window is cut at 2 and the next one starts at
      3, so the character at 2 is in no window. */
  lemma NegativeOverlapSkips()
    ensures Cut("abcdef", 0, 2, -1) == 2
    ensures Advance(0, 2, -1) == 3
    ensures Windows(ChunkingService(2, -1), "abcdef", 0)[..2] == [Window(0, 2), Window(3, 5)]
  {
    var text := "abcdef";
    var svc := ChunkingService(2, -1);
    assert Cut(text, 3, 2, -1) == 5 by {
      assert RightmostBreak(text, 6, 5).None?;
    }
    var ws := Windows(svc, text, 0);
    assert ws[0] == Window(0, 2);
    assert ws[1..][0] == Window(3, 5);
  }

  // ---------------------------------------------------------------------------
  // Markdown files
  // ---------------------------------------------------------------------------

  /** The chunks of each section in turn, tagged with the section's title. */
  function ChunkSections(svc: ChunkingService, md5: string -> Md5Hex, sections: seq<Section>,
                         sourceFile: string): seq<ContentChunk>
    requires svc.Valid()
  {
    if |sections| == 0 then []
    else
      var last := sections[|sections| - 1];
      ChunkSections(svc, md5, sections[..|sections| - 1], sourceFile)
        + Chunks(svc, md5, last.body, sourceFile, last.title)
  }

  /** `chunk_markdown_file`. */
  method ChunkMarkdownFile(svc: ChunkingService, md5: string -> Md5Hex, content: string,
                           sourceFile: string) returns (allChunks: seq<ContentChunk>)
    requires svc.Valid()
    ensures allChunks == ChunkSections(svc, md5, Sections(content), sourceFile)
  {
    var sections := SplitMarkdownSections(content);
    allChunks := [];
    for i := 0 to |sections|
      invariant allChunks == ChunkSections(svc, md5, sections[..i], sourceFile)
    {
      var chunks := ChunkText(svc, md5, sections[i].body, sourceFile, sections[i].title);
      assert sections[..i + 1][..i] == sections[..i];
      allChunks := allChunks + chunks;
    }
    assert sections[..|sections|] == sections;
  }

  /** Every chunk of a markdown file carries the file's name, has non-empty
      text, and comes from one section: it is the stripped text of a window of
      at most `chunkSize` characters of that section's body, and it carries
      that section's title. */
  lemma {:induction false} ChunkSectionsProvenance(svc: ChunkingService, md5: string -> Md5Hex,
                                                   sections: seq<Section>, sourceFile: string)
    requires svc.Valid()
    ensures forall c :: c in ChunkSections(svc, md5, sections, sourceFile) ==>
      && c.sourceFile == sourceFile && c.text != ""
      && exists i :: 0 <= i < |sections| && c.sourceSection == sections[i].title
                     && FromWindow(sections[i].body, c.text, svc.chunkSize)
  {
    if |sections| > 0 {
      var init := sections[..|sections| - 1];
      var last := sections[|sections| - 1];
      ChunkSectionsProvenance(svc, md5, init, sourceFile);
      ChunksFromWellFormed(svc, md5, last.body, sourceFile, last.title, 0, 0);
      forall c | c in ChunkSections(svc, md5, sections, sourceFile)
        ensures && c.sourceFile == sourceFile && c.text != ""
                && exists i :: 0 <= i < |sections| && c.sourceSection == sections[i].title
                               && FromWindow(sections[i].body, c.text, svc.chunkSize)
      {
        if c in ChunkSections(svc, md5, init, sourceFile) {
          var i :| 0 <= i < |init| && c.sourceSection == init[i].title
                   && FromWindow(init[i].body, c.text, svc.chunkSize);
          assert init[i] == sections[i];
        } else {
          var cs := Chunks(svc, md5, last.body, sourceFile, last.title);
          var k :| 0 <= k < |cs| && cs[k] == c;
          assert WellFormed(cs[k], md5, last.body, sourceFile, last.title, svc.chunkSize, 0);
          assert sections[|sections| - 1] == last;
        }
      }
    }
  }
}
