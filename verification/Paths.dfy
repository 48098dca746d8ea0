// Addressing one chunk of an archive: "<archive>#chunk=N".
module Paths {
  import opened Wrappers
  import opened Decimal

  const MARKER := "#chunk="
  const SCHEME := "openzl://"

  datatype ChunkPath = ChunkPath(archive: string, chunk: nat)

  predicate MarkerAt(s: string, pos: int) {
    0 <= pos && pos + 7 <= |s| && s[pos..pos + 7] == MARKER
  }

  /** std::string::rfind of the marker at or before `pos`. */
  function RFind(s: string, pos: int): (r: Option<nat>)
    requires -1 <= pos
    ensures r.Some? ==> MarkerAt(s, r.value) && r.value <= pos
    ensures r.Some? ==> forall k | r.value < k <= pos :: !MarkerAt(s, k)
    ensures r.None? ==> forall k | 0 <= k <= pos :: !MarkerAt(s, k)
    decreases pos + 1
  {
    if pos < 0 then None else if MarkerAt(s, pos) then Some(pos) else RFind(s, pos - 1)
  }

  function SplitChunkSuffix(realPath: string): Option<ChunkPath> {
    match RFind(realPath, |realPath|)
    case None => None
    case Some(pos) =>
      var digits := realPath[pos + 7..];
      if digits == "" || |digits| > 15 || !AllDigits(digits) then None
      else Some(ChunkPath(realPath[..pos], Value(digits)))
  }

  function ChunkName(archive: string, chunk: nat): string {
    archive + MARKER + Print(chunk)
  }

  lemma NoHashAfterMarker(s: string, pos: nat, k: nat)
    requires MarkerAt(s, pos) && AllDigits(s[pos + 7..]) && pos < k < |s|
    ensures s[k] != '#'
  {
    if k < pos + 7 {
      assert s[k] == s[pos..pos + 7][k - pos] == MARKER[k - pos];
    } else {
      assert IsDigit(s[pos + 7..][k - (pos + 7)]);
    }
  }

  lemma SplitOfDigits(archive: string, digits: string)
    requires AllDigits(digits)
    ensures SplitChunkSuffix(archive + MARKER + digits)
         == if 1 <= |digits| <= 15 then Some(ChunkPath(archive, Value(digits))) else None
  {
    var s, pos := archive + MARKER + digits, |archive|;
    SliceWithin(archive, MARKER, digits, 0, 7);
    assert MARKER[0..7] == MARKER;
    assert s[pos + 7..] == digits;
    var r := RFind(s, |s|);
    assert MarkerAt(s, pos);
    assert r.Some? && r.value >= pos;
    assert s[r.value..r.value + 7][0] == MARKER[0];
    if r.value > pos {
      NoHashAfterMarker(s, pos, r.value);
    }
    assert s[..pos] == archive;
  }

  /** What the suffix parser accepts, whatever the archive name contains. */
  lemma SplitChunkSuffixAccepts(s: string, archive: string, chunk: nat)
    ensures SplitChunkSuffix(s) == Some(ChunkPath(archive, chunk))
       <==> exists digits :: AllDigits(digits) && 1 <= |digits| <= 15 && Value(digits) == chunk
                          && s == archive + MARKER + digits
  {
    if SplitChunkSuffix(s) == Some(ChunkPath(archive, chunk)) {
      var pos := RFind(s, |s|).value;
      var digits := s[pos + 7..];
      assert s == s[..pos] + s[pos..pos + 7] + digits;
    }
    if digits :| AllDigits(digits) && 1 <= |digits| <= 15 && Value(digits) == chunk && s == archive + MARKER + digits {
      SplitOfDigits(archive, digits);
    }
  }

  /** A generated chunk path names its archive and chunk, exactly as long as the number has at most 15 digits. */
  lemma ChunkNameRoundTrip(archive: string, chunk: nat)
    ensures SplitChunkSuffix(ChunkName(archive, chunk))
         == if chunk < Pow10(15) then Some(ChunkPath(archive, chunk)) else None
  {
    SplitOfDigits(archive, Print(chunk));
    ValueOfPrint(chunk);
    PrintLength(chunk, 15);
  }

  /** Distinct chunks of an archive have distinct paths. */
  lemma ChunkNamesAreDistinct(archive: string, i: nat, j: nat)
    requires ChunkName(archive, i) == ChunkName(archive, j)
    ensures i == j
  {
    var n := |archive + MARKER|;
    assert ChunkName(archive, i)[n..] == Print(i);
    assert ChunkName(archive, j)[n..] == Print(j);
    PrintIsInjective(i, j);
  }
}
