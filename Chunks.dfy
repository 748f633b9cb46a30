/** The chunk arithmetic of the document pipeline: `split_pdf` and
    `process_single_document` cut the first `MAX_PAGES` pages of a PDF into
    chunks of `chunk_size` pages, `process_pdf` recomputes the page range of
    one chunk, and each page of a chunk gets a zero-padded folder. */
module Chunks {
  import opened Ranges
  import opened Decimal

  /** `MAX_PAGES`: only the first 16 pages of a document are processed. */
  const MaxPages: nat := 16

  function Min(a: int, b: int): int
  {
    if a <= b then a else b
  }

  /** `min(doc.page_count, MAX_PAGES)`. */
  function PagesToSplit(pageCount: nat): (n: nat)
    ensures n <= pageCount && n <= MaxPages
    ensures n == pageCount || n == MaxPages
  {
    Min(pageCount, MaxPages)
  }

  /** `(num_pages + chunk_size - 1) // chunk_size`: the ceiling of
      `numPages / chunkSize`, the fewest chunks that hold every page. */
  function NumChunks(numPages: nat, chunkSize: nat): (k: nat)
    requires chunkSize >= 1
    ensures numPages <= k * chunkSize
    ensures k > 0 ==> (k - 1) * chunkSize < numPages
  {
    CeilingDiv(numPages, chunkSize);
    (numPages + chunkSize - 1) / chunkSize
  }

  lemma CeilingDiv(n: nat, d: nat)
    requires d >= 1
    ensures n <= ((n + d - 1) / d) * d
    ensures (n + d - 1) / d > 0 ==> ((n + d - 1) / d - 1) * d < n
  {
    var q := (n + d - 1) / d;
    var r := (n + d - 1) % d;
    assert q * d + r == n + d - 1;
    assert 0 <= r < d;
    assert (q - 1) * d == q * d - d;
  }

  /** `i * chunk_size`: the first page of chunk `i`. */
  function ChunkStart(i: nat, chunkSize: nat): nat
  {
    i * chunkSize
  }

  /** `min((i + 1) * chunk_size, num_pages)`: the page after chunk `i`. */
  function ChunkEnd(i: nat, chunkSize: nat, numPages: nat): (e: nat)
    ensures e <= numPages && e <= ChunkStart(i + 1, chunkSize)
    ensures e == numPages || e == ChunkStart(i + 1, chunkSize)
  {
    Min((i + 1) * chunkSize, numPages)
  }

  /** Page `p` lies in chunk `i`. */
  predicate InChunk(p: int, i: nat, chunkSize: nat, numPages: nat)
  {
    ChunkStart(i, chunkSize) <= p < ChunkEnd(i, chunkSize, numPages)
  }

  /** The chunk that `p` belongs to. */
  function ChunkOf(p: nat, chunkSize: nat): (i: nat)
    requires chunkSize >= 1
    ensures ChunkStart(i, chunkSize) <= p < ChunkStart(i + 1, chunkSize)
  {
    p / chunkSize
  }

  lemma {:induction false} MulMonotone(a: nat, b: nat, c: nat)
    requires a <= b
    ensures a * c <= b * c
  {
    if a < b {
      MulMonotone(a, b - 1, c);
      assert b * c == (b - 1) * c + c;
    }
  }

  /** Page `p` lies in chunk `i` exactly when `p` is one of the pages and
      `i` is its chunk. */
  lemma InChunkIff(p: int, i: nat, chunkSize: nat, numPages: nat)
    requires chunkSize >= 1
    ensures InChunk(p, i, chunkSize, numPages) <==> 0 <= p < numPages && ChunkOf(p, chunkSize) == i
  {
    if 0 <= p {
      var q := p / chunkSize;
      var r := p % chunkSize;
      assert p == q * chunkSize + r && 0 <= r < chunkSize;
      assert (q + 1) * chunkSize == q * chunkSize + chunkSize;
      if i < q {
        MulMonotone(i + 1, q, chunkSize);
      } else if i > q {
        MulMonotone(q + 1, i, chunkSize);
      }
    }
  }

  /** The chunks of `split_pdf` are non-empty, start at page 0, follow each
      other without gap or overlap and end at the last page: every page lies
      in exactly one chunk, the one `ChunkOf` names. */
  lemma ChunksPartition(numPages: nat, chunkSize: nat)
    requires chunkSize >= 1
    ensures var k := NumChunks(numPages, chunkSize);
      && (forall i :: 0 <= i < k ==> ChunkStart(i, chunkSize) < ChunkEnd(i, chunkSize, numPages))
      && (forall i :: 0 <= i < k - 1 ==> ChunkEnd(i, chunkSize, numPages) == ChunkStart(i + 1, chunkSize))
      && (k > 0 ==> ChunkStart(0, chunkSize) == 0 && ChunkEnd(k - 1, chunkSize, numPages) == numPages)
      && (forall p: nat :: p < numPages ==> ChunkOf(p, chunkSize) < k)
      && (forall p, i: nat :: InChunk(p, i, chunkSize, numPages) <==> 0 <= p < numPages && ChunkOf(p, chunkSize) == i)
  {
    var k := NumChunks(numPages, chunkSize);
    forall i | 0 <= i < k
      ensures ChunkStart(i, chunkSize) < ChunkEnd(i, chunkSize, numPages)
    {
      MulMonotone(i, k - 1, chunkSize);
      assert (i + 1) * chunkSize == i * chunkSize + chunkSize;
    }
    forall i | 0 <= i < k - 1
      ensures ChunkEnd(i, chunkSize, numPages) == ChunkStart(i + 1, chunkSize)
    {
      MulMonotone(i + 1, k - 1, chunkSize);
    }
    forall p: nat | p < numPages
      ensures ChunkOf(p, chunkSize) < k
    {
      var q := p / chunkSize;
      assert q * chunkSize <= p;
      if q >= k {
        MulMonotone(k, q, chunkSize);
      }
    }
    forall p, i: nat
      ensures InChunk(p, i, chunkSize, numPages) <==> 0 <= p < numPages && ChunkOf(p, chunkSize) == i
    {
      InChunkIff(p, i, chunkSize, numPages);
    }
  }

  /** One output file of `split_pdf`: pages `[firstPage, endPage)` saved
      under `name`. */
  datatype ChunkFile = ChunkFile(firstPage: nat, endPage: nat, name: string)

  /** `f"chunk_{str(i + 1).zfill(num_digits)}.pdf"`, where `num_digits` is
      the digit count of the number of chunks. */
  function ChunkName(i: nat, numChunks: nat): string
  {
    "chunk_" + (ZFill(NatToString(i + 1), |NatToString(numChunks)|) + ".pdf")
  }

  /** Chunk `i` of `numChunks` over `numPages` pages. */
  function ChunkFileAt(i: nat, chunkSize: nat, numPages: nat, numChunks: nat): ChunkFile
  {
    ChunkFile(ChunkStart(i, chunkSize), ChunkEnd(i, chunkSize, numPages), ChunkName(i, numChunks))
  }

  /** The `numChunks` chunk files over `numPages` pages, in order. */
  function ChunkFiles(chunkSize: nat, numPages: nat, numChunks: nat): seq<ChunkFile>
  {
    seq(numChunks, i requires 0 <= i < numChunks => ChunkFileAt(i, chunkSize, numPages, numChunks))
  }

  /** The chunk files `split_pdf` writes, in order. */
  function SplitPlan(pageCount: nat, chunkSize: nat): seq<ChunkFile>
    requires chunkSize >= 1
  {
    var n := PagesToSplit(pageCount);
    ChunkFiles(chunkSize, n, NumChunks(n, chunkSize))
  }

  /** One turn of the `split_pdf` loop: the pages and the name of chunk
      `i`. */
  method SplitChunk(i: nat, chunkSize: nat, numPages: nat, numChunks: nat, numDigits: nat) returns (chunk: ChunkFile)
    requires numDigits == |NatToString(numChunks)|
    ensures chunk == ChunkFileAt(i, chunkSize, numPages, numChunks)
  {
    var startPage := i * chunkSize;
    var endPage := if (i + 1) * chunkSize < numPages then (i + 1) * chunkSize else numPages;
    var chunkNum := ZFill(NatToString(i + 1), numDigits);
    chunk := ChunkFile(startPage, endPage, "chunk_" + (chunkNum + ".pdf"));
  }

  /** The loop of `split_pdf`: one chunk file per turn. */
  method WriteChunks(chunkSize: nat, numPages: nat, numChunks: nat) returns (chunks: seq<ChunkFile>)
    ensures chunks == ChunkFiles(chunkSize, numPages, numChunks)
  {
    var numDigits := |NatToString(numChunks)|;
    chunks := [];
    for i := 0 to numChunks
      invariant |chunks| == i
      invariant forall j :: 0 <= j < i ==> chunks[j] == ChunkFileAt(j, chunkSize, numPages, numChunks)
    {
      var chunk := SplitChunk(i, chunkSize, numPages, numChunks, numDigits);
      chunks := chunks + [chunk];
    }
  }

  /** `split_pdf` over a document of `pageCount` pages: the number of
      chunks and the chunk files. */
  method SplitPdf(pageCount: nat, chunkSize: nat) returns (numChunks: nat, chunks: seq<ChunkFile>)
    requires chunkSize >= 1
    ensures numChunks == NumChunks(PagesToSplit(pageCount), chunkSize)
    ensures chunks == SplitPlan(pageCount, chunkSize)
  {
    var numPages := if pageCount < MaxPages then pageCount else MaxPages;
    numChunks := (numPages + chunkSize - 1) / chunkSize;
    chunks := WriteChunks(chunkSize, numPages, numChunks);
  }

  /** The chunk files, listed in name order, come in page order: names
      zero-padded to the digit count of the chunk count compare as strings
      exactly as the chunk numbers compare. */
  lemma ChunkNamesOrdered(i: nat, j: nat, numChunks: nat)
    requires i < numChunks && j < numChunks
    ensures LexLess(ChunkName(i, numChunks), ChunkName(j, numChunks)) <==> i < j
  {
    var w := |NatToString(numChunks)|;
    DigitCountMonotone(i + 1, numChunks);
    DigitCountMonotone(j + 1, numChunks);
    ZFillOrder(i + 1, j + 1, w);
    var a := ZFill(NatToString(i + 1), w);
    var b := ZFill(NatToString(j + 1), w);
    PadIsFixed(i + 1, w);
    PadIsFixed(j + 1, w);
    LexLessCommonSuffix(a, b, ".pdf");
    LexLessCommonPrefix("chunk_", a + ".pdf", b + ".pdf");
  }

  /** `range(start_page, end_page)` of `process_pdf` for chunk `chunkNum`
      (counted from 1): at most `chunkSize` pages, all before the page
      limit `min(page_count, max_pages)`, none when the chunk starts at or
      past that limit, and none before page 0 for a chunk numbered from 1. */
  function ChunkPageRange(chunkNum: int, chunkSize: int, pageCount: nat, maxPages: int): (r: seq<int>)
    ensures |r| <= if chunkSize < 0 then 0 else chunkSize
    ensures forall p :: p in r ==> (chunkNum - 1) * chunkSize <= p < Min(pageCount, maxPages)
    ensures (chunkNum - 1) * chunkSize >= Min(pageCount, maxPages) ==> r == []
    ensures chunkNum >= 1 && chunkSize >= 0 ==> forall p :: p in r ==> p >= 0
  {
    var startPage := (chunkNum - 1) * chunkSize;
    var endPage := Min(startPage + chunkSize, Min(pageCount, maxPages));
    RangeMembers(startPage, endPage);
    assert chunkNum >= 1 && chunkSize >= 0 ==> startPage >= 0;
    Range(startPage, endPage)
  }

  /** `process_single_document` runs `process_pdf` for chunks 1 to
      `num_chunks` with `max_pages = MAX_PAGES`: chunk `chunkNum` then
      covers exactly the pages `split_pdf` puts in its chunk
      `chunkNum - 1`, so the chunks together process every page of the
      first `MAX_PAGES` once. */
  lemma ChunkRangesAgree(pageCount: nat, chunkSize: nat, chunkNum: nat)
    requires chunkSize >= 1
    requires 1 <= chunkNum <= NumChunks(PagesToSplit(pageCount), chunkSize)
    ensures ChunkPageRange(chunkNum, chunkSize, pageCount, MaxPages)
            == Range(ChunkStart(chunkNum - 1, chunkSize), ChunkEnd(chunkNum - 1, chunkSize, PagesToSplit(pageCount)))
  {
    assert (chunkNum - 1) * chunkSize + chunkSize == ((chunkNum - 1) + 1) * chunkSize;
  }

  /** `f'{chunk_page_num:04d}'`: the folder of the `k`-th page of a chunk. */
  function PageFolder(k: nat): string
  {
    ZFill(NatToString(k), 4)
  }

  /** A page folder passes the `isdigit` filter of the layout step and
      `int` reads its page number back. */
  lemma PageFolderReadBack(k: nat)
    ensures AllDigits(PageFolder(k)) && PageFolder(k) != []
    ensures ParseDigits(PageFolder(k)) == k
  {
    ParseZFill(k, 4);
  }

  /** Below 10000 pages the folder names sort as strings in page order
      too. */
  lemma PageFoldersOrdered(j: nat, k: nat)
    requires j < 10000 && k < 10000
    ensures LexLess(PageFolder(j), PageFolder(k)) <==> j < k
  {
    DigitsBelow(j, 4);
    DigitsBelow(k, 4);
    ZFillOrder(j, k, 4);
  }

  lemma {:induction false} DigitsBelow(n: nat, w: nat)
    requires w >= 1 && n < Pow10(w)
    ensures |NatToString(n)| <= w
  {
    if n >= 10 {
      assert w >= 2;
      DivBound(n, w);
      DigitsBelow(n / 10, w - 1);
    }
  }
}
