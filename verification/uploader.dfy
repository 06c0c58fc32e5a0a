/** The file-selection component: a drop zone and a file input, both of which
    keep only PDF files before handing the selection to the application. */
module Uploader {
  import opened Wrappers
  import Seqs

  /** A browser file handle: its name, its declared media type and its bytes. */
  datatype File = File(name: string, mimeType: string, contents: seq<bv8>)

  /** The only media type the selection accepts. */
  const PdfMimeType: string := "application/pdf"

  /** Exact comparison of the declared media type; no normalisation or sniffing. */
  predicate IsPdf(f: File) {
    f.mimeType == PdfMimeType
  }

  /** The files of a raw selection that are PDFs, in selection order. */
  function PdfFiles(raw: seq<File>): (r: seq<File>)
    ensures |r| <= |raw|
    ensures forall k :: 0 <= k < |r| ==> IsPdf(r[k]) && r[k] in raw
    ensures forall j :: 0 <= j < |raw| && IsPdf(raw[j]) ==> raw[j] in r
  {
    var r := Seqs.Filter(raw, IsPdf);
    forall j | 0 <= j < |raw| && IsPdf(raw[j])
      ensures raw[j] in r
    {
      Seqs.FilterCounts(raw, IsPdf, raw[j]);
      assert raw[j] in multiset(raw);
    }
    r
  }

  /** The argument the drop handler passes to the selection callback, or None when it
      does not call it. A missing or empty file list is ignored; any other drop fires
      the callback, even when no dropped file is a PDF. */
  function HandleDrop(dropped: Option<seq<File>>): (r: Option<seq<File>>)
    ensures r.Some? <==> dropped.Some? && |dropped.value| > 0
    ensures r.Some? ==> r.value == PdfFiles(dropped.value)
  {
    if dropped.Some? && |dropped.value| > 0 then Some(PdfFiles(dropped.value)) else None
  }

  /** The argument the file-input change handler passes to the selection callback,
      or None when it does not call it; the same guard as the drop handler. */
  function HandleFileChange(chosen: Option<seq<File>>): (r: Option<seq<File>>)
    ensures r.Some? <==> chosen.Some? && |chosen.value| > 0
    ensures r.Some? ==> r.value == PdfFiles(chosen.value)
  {
    if chosen.Some? && |chosen.value| > 0 then Some(PdfFiles(chosen.value)) else None
  }

  /** The filtered selection is an order-preserving subsequence of the raw one: the k-th
      kept file is the raw file at the k-th PDF position, and those positions ascend. */
  lemma SelectionIsOrderedSubsequence(raw: seq<File>)
    ensures |PdfFiles(raw)| == |Seqs.Positions(raw, IsPdf)|
    ensures forall k :: 0 <= k < |PdfFiles(raw)| ==>
      PdfFiles(raw)[k] == raw[Seqs.Positions(raw, IsPdf)[k]]
  {
    Seqs.FilterIsPositionSelection(raw, IsPdf);
  }

  /** No PDF is dropped and nothing else is kept, counting duplicates. */
  lemma SelectionKeepsEveryPdf(raw: seq<File>, f: File)
    ensures multiset(PdfFiles(raw))[f] == if IsPdf(f) then multiset(raw)[f] else 0
  {
    Seqs.FilterCounts(raw, IsPdf, f);
  }

  /** Filtering an already filtered selection changes nothing. */
  lemma SelectionIdempotent(raw: seq<File>)
    ensures PdfFiles(PdfFiles(raw)) == PdfFiles(raw)
  {
    Seqs.FilterIdempotent(raw, IsPdf);
  }

  /** Dropping a file list and choosing the same list through the input give the
      callback the same argument, and neither fires for an empty or missing list. */
  lemma DropAndInputAgree(raw: Option<seq<File>>)
    ensures HandleDrop(raw) == HandleFileChange(raw)
    ensures raw.None? || raw == Some([]) ==> HandleDrop(raw).None?
  {
  }

  /** A non-empty drop with no PDF in it still fires the callback, with an empty list. */
  lemma NoPdfStillFires(raw: seq<File>)
    requires |raw| > 0
    requires forall k :: 0 <= k < |raw| ==> !IsPdf(raw[k])
    ensures HandleDrop(Some(raw)) == Some([])
  {
    Seqs.FilterDropsAllUnsatisfying(raw, IsPdf);
  }

  /** One non-PDF file among two PDFs: the callback receives exactly the two PDFs, in order. */
  lemma MixedSelectionExample(a: File, b: File, c: File)
    requires IsPdf(a) && !IsPdf(b) && IsPdf(c)
    ensures HandleFileChange(Some([a, b, c])) == Some([a, c])
  {
    assert [a, b, c][..2] == [a, b];
    assert [a, b][..1] == [a];
    assert [a][..0] == [];
    assert Seqs.Filter([a], IsPdf) == [a];
    assert Seqs.Filter([a, b], IsPdf) == [a];
    assert Seqs.Filter([a, b, c], IsPdf) == [a, c];
  }
}
