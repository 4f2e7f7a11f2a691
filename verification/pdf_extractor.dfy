/** The plain-text extractor: one record per page with any text, its
    heading the first line that names one of five section keywords, and a
    directory walk that keeps the files ending in ".pdf". */
module PdfExtractor {
  import opened Wrappers
  import opened Text
  import opened Records

  /** The section keywords of the heading pattern, matched case-sensitively. */
  const SectionKeywords: seq<string> := ["Troubleshooting", "Installation", "Setup", "Configuration", "Maintenance"]

  predicate HasSectionKeyword(line: string) {
    exists k :: 0 <= k < |SectionKeywords| && Contains(line, SectionKeywords[k])
  }

  /** The first element of `lines` that holds a keyword, or "" when none
      does: what `^.*(?:...).*$` in multi-line mode finds first, since `.`
      stops at a line break and `^`/`$` bound a whole line. */
  function FirstSectionLine(lines: seq<string>): string
  {
    if lines == [] then []
    else if HasSectionKeyword(lines[0]) then lines[0]
    else FirstSectionLine(lines[1..])
  }

  /** The heading found is "" exactly when no line holds a keyword, and
      otherwise the first line that does. */
  lemma {:induction false} FirstSectionLineSpec(lines: seq<string>)
    ensures var r := FirstSectionLine(lines);
            && (r == [] <==> forall k :: 0 <= k < |lines| ==> !HasSectionKeyword(lines[k]))
            && (r != [] ==> exists k :: 0 <= k < |lines| && lines[k] == r && HasSectionKeyword(r)
                                         && forall j :: 0 <= j < k ==> !HasSectionKeyword(lines[j]))
  {
    if lines != [] {
      if HasSectionKeyword(lines[0]) {
        var k :| 0 <= k < |SectionKeywords| && Contains(lines[0], SectionKeywords[k]);
        assert lines[0] != [];
      } else {
        FirstSectionLineSpec(lines[1..]);
        FirstSectionLineSkip(lines, FirstSectionLine(lines[1..]));
      }
    }
  }

  /** The search step past a line without a keyword. */
  lemma FirstSectionLineSkip(lines: seq<string>, r: string)
    requires lines != [] && !HasSectionKeyword(lines[0])
    requires r == [] <==> forall k :: 0 <= k < |lines[1..]| ==> !HasSectionKeyword(lines[1..][k])
    requires r != [] ==> exists k :: 0 <= k < |lines[1..]| && lines[1..][k] == r && HasSectionKeyword(r)
                                     && forall j :: 0 <= j < k ==> !HasSectionKeyword(lines[1..][j])
    ensures r == [] <==> forall k :: 0 <= k < |lines| ==> !HasSectionKeyword(lines[k])
    ensures r != [] ==> exists k :: 0 <= k < |lines| && lines[k] == r && HasSectionKeyword(r)
                                    && forall j :: 0 <= j < k ==> !HasSectionKeyword(lines[j])
  {
    if r != [] {
      var k :| 0 <= k < |lines[1..]| && lines[1..][k] == r && HasSectionKeyword(r)
               && forall j :: 0 <= j < k ==> !HasSectionKeyword(lines[1..][j]);
      assert lines[k + 1] == r;
      forall j | 0 <= j < k + 1 ensures !HasSectionKeyword(lines[j]) {
        if j > 0 { assert lines[j] == lines[1..][j - 1]; }
      }
    } else {
      forall k | 0 <= k < |lines| ensures !HasSectionKeyword(lines[k]) {
        if k > 0 { assert lines[k] == lines[1..][k - 1]; }
      }
    }
  }

  /** The heading of a page: its first keyword line, or "". */
  function PageHeading(text: string): string {
    FirstSectionLine(Lines(text))
  }

  /** The record of the page with 0-based position `index`. */
  function TextRecord(source: string, index: nat, text: string): Record {
    Record(text, Metadata(source, index + 1, PageHeading(text), None))
  }

  /** `extract_text_with_metadata` on a document whose pages hold `pages`:
      the loop over the pages, keeping those with text. */
  function ExtractTextWithMetadata(source: string, pages: seq<string>): (r: seq<Record>)
    ensures |r| <= |pages|
  {
    if pages == [] then []
    else
      var n := |pages| - 1;
      ExtractTextWithMetadata(source, pages[..n])
        + (if pages[n] == [] then [] else [TextRecord(source, n, pages[n])])
  }

  /** `rec` is the record of one of `pages` that has text: it carries that
      page's number, its text and its heading. */
  predicate IsPageRecord(source: string, pages: seq<string>, rec: Record) {
    && 1 <= rec.metadata.page <= |pages|
    && rec.content == pages[rec.metadata.page - 1] != []
    && rec.metadata == Metadata(source, rec.metadata.page, PageHeading(rec.content), None)
  }

  /** Each record holds a page with text, under that page's number, with
      that page's heading. */
  lemma {:induction false} ExtractedRecordsArePages(source: string, pages: seq<string>)
    ensures forall j :: 0 <= j < |ExtractTextWithMetadata(source, pages)| ==>
              IsPageRecord(source, pages, ExtractTextWithMetadata(source, pages)[j])
  {
    if pages != [] {
      var n := |pages| - 1;
      var prev := ExtractTextWithMetadata(source, pages[..n]);
      ExtractedRecordsArePages(source, pages[..n]);
      var r := ExtractTextWithMetadata(source, pages);
      forall j | 0 <= j < |r| ensures IsPageRecord(source, pages, r[j]) {
        if j < |prev| {
          assert r[j] == prev[j];
          assert IsPageRecord(source, pages[..n], prev[j]);
          assert pages[..n][prev[j].metadata.page - 1] == pages[prev[j].metadata.page - 1];
        } else {
          assert r[j] == TextRecord(source, n, pages[n]);
        }
      }
    }
  }

  predicate PagesIncrease(r: seq<Record>) {
    forall j, k :: 0 <= j < k < |r| ==> r[j].metadata.page < r[k].metadata.page
  }

  /** The records come in strictly increasing page order. */
  lemma {:induction false} ExtractedRecordsOrdered(source: string, pages: seq<string>)
    ensures PagesIncrease(ExtractTextWithMetadata(source, pages))
  {
    if pages != [] {
      var n := |pages| - 1;
      var prev := ExtractTextWithMetadata(source, pages[..n]);
      ExtractedRecordsOrdered(source, pages[..n]);
      ExtractedRecordsArePages(source, pages[..n]);
      var r := ExtractTextWithMetadata(source, pages);
      forall j, k | 0 <= j < k < |r| ensures r[j].metadata.page < r[k].metadata.page {
        assert r[j] == prev[j];
        assert IsPageRecord(source, pages[..n], prev[j]);
        if k < |prev| {
          assert r[k] == prev[k];
          assert PagesIncrease(prev);
        } else {
          assert r[k] == TextRecord(source, n, pages[n]);
        }
      }
    }
  }

  /** Every page with text has a record, and no other page does. */
  lemma {:induction false} ExtractedRecordsComplete(source: string, pages: seq<string>)
    ensures var r := ExtractTextWithMetadata(source, pages);
            forall i :: 0 <= i < |pages| ==>
              (pages[i] != [] <==> exists j :: 0 <= j < |r| && r[j].metadata.page == i + 1)
  {
    ExtractedRecordsArePages(source, pages);
    if pages != [] {
      var n := |pages| - 1;
      var prev := ExtractTextWithMetadata(source, pages[..n]);
      ExtractedRecordsComplete(source, pages[..n]);
      var r := ExtractTextWithMetadata(source, pages);
      forall i | 0 <= i < |pages| && pages[i] != []
        ensures exists j :: 0 <= j < |r| && r[j].metadata.page == i + 1
      {
        if i == n {
          assert r[|r| - 1].metadata.page == i + 1;
        } else {
          assert pages[..n][i] != [];
          var j :| 0 <= j < |prev| && prev[j].metadata.page == i + 1;
          assert r[j] == prev[j];
          assert r[j].metadata.page == i + 1;
        }
      }
    }
  }

  const PdfSuffix: string := ".pdf"

  /** One directory entry: its name, and what opening it with `PdfReader`
      gives, the page texts or `None` when the reader raises. Entries whose
      name does not end in ".pdf" are never opened. */
  datatype Entry = Entry(name: string, read: Option<seq<string>>)

  /** A ".pdf" entry the reader cannot open: it aborts the walk, since
      `process_directory` does not catch the exception. */
  predicate Unreadable(e: Entry) {
    EndsWith(e.name, PdfSuffix) && e.read.None?
  }

  /** The records of a file that was read. */
  function FileRecords(name: string, pages: seq<string>): seq<Record> {
    ExtractTextWithMetadata(name, pages)
  }

  /** What one entry contributes: nothing unless its name ends in ".pdf",
      otherwise its records, or `None` when reading it raised. */
  function EntryRecords(e: Entry): Option<seq<Record>> {
    if !EndsWith(e.name, PdfSuffix) then Some([])
    else if e.read.None? then None
    else Some(FileRecords(e.name, e.read.value))
  }

  /** Records gathered so far followed by more, or `None` once an
      exception has escaped. */
  function Combine(x: Option<seq<Record>>, y: Option<seq<Record>>): Option<seq<Record>> {
    if x.Some? && y.Some? then Some(x.value + y.value) else None
  }

  lemma CombineAssoc(x: Option<seq<Record>>, y: Option<seq<Record>>, z: Option<seq<Record>>)
    ensures Combine(Combine(x, y), z) == Combine(x, Combine(y, z))
  {
    if x.Some? && y.Some? && z.Some? {
      assert x.value + y.value + z.value == x.value + (y.value + z.value);
    }
  }

  /** `process_directory` over the entries in the order the directory
      lists them: `None` stands for the exception that escapes it. */
  function ProcessDirectory(listing: seq<Entry>): Option<seq<Record>> {
    if listing == [] then Some([])
    else
      var n := |listing| - 1;
      Combine(ProcessDirectory(listing[..n]), EntryRecords(listing[n]))
  }

  /** The walk produces no records at all exactly when one of the listed
      ".pdf" files cannot be read. */
  lemma {:induction false} ProcessDirectoryFails(listing: seq<Entry>)
    ensures ProcessDirectory(listing).None? <==> exists k :: 0 <= k < |listing| && Unreadable(listing[k])
  {
    if listing != [] {
      var n := |listing| - 1;
      var prev := listing[..n];
      ProcessDirectoryFails(prev);
      if ProcessDirectory(prev).None? {
        var k :| 0 <= k < |prev| && Unreadable(prev[k]);
        assert listing[k] == prev[k];
      } else if Unreadable(listing[n]) {
      } else {
        forall k | 0 <= k < |listing| ensures !Unreadable(listing[k]) {
          if k < n {
            assert listing[k] == prev[k];
          }
        }
      }
    }
  }

  /** When the walk completes, a record comes out of it exactly when it
      comes out of one of the listed ".pdf" files. */
  lemma {:induction false} ProcessDirectoryMembers(listing: seq<Entry>, rec: Record)
    requires ProcessDirectory(listing).Some?
    ensures rec in ProcessDirectory(listing).value <==>
              exists k :: 0 <= k < |listing| && EndsWith(listing[k].name, PdfSuffix) && listing[k].read.Some?
                          && rec in FileRecords(listing[k].name, listing[k].read.value)
  {
    if listing != [] {
      var n := |listing| - 1;
      var prev := listing[..n];
      var e := listing[n];
      ProcessDirectoryMembers(prev, rec);
      var last := EntryRecords(e).value;
      assert ProcessDirectory(listing).value == ProcessDirectory(prev).value + last;
      if rec in ProcessDirectory(prev).value {
        var k :| 0 <= k < |prev| && EndsWith(prev[k].name, PdfSuffix) && prev[k].read.Some?
                 && rec in FileRecords(prev[k].name, prev[k].read.value);
        assert listing[k] == prev[k];
      } else if rec in last {
        assert EndsWith(e.name, PdfSuffix) && e.read.Some?;
      } else {
        forall k | 0 <= k < |listing| && EndsWith(listing[k].name, PdfSuffix) && listing[k].read.Some?
          ensures rec !in FileRecords(listing[k].name, listing[k].read.value)
        {
          if k < n {
            assert listing[k] == prev[k];
          }
        }
      }
    }
  }

  /** Only files whose name ends in ".pdf" contribute records. */
  lemma ProcessDirectoryPdfOnly(listing: seq<Entry>, rec: Record)
    requires ProcessDirectory(listing).Some? && rec in ProcessDirectory(listing).value
    ensures EndsWith(rec.metadata.source, PdfSuffix)
  {
    ProcessDirectoryMembers(listing, rec);
    var k :| 0 <= k < |listing| && EndsWith(listing[k].name, PdfSuffix) && listing[k].read.Some?
             && rec in FileRecords(listing[k].name, listing[k].read.value);
    var name := listing[k].name;
    var pages := listing[k].read.value;
    ExtractedRecordsArePages(name, pages);
    var r := ExtractTextWithMetadata(name, pages);
    var j :| 0 <= j < |r| && r[j] == rec;
    assert IsPageRecord(name, pages, r[j]);
  }

  /** Files contribute in listing order: the walk over a listing is the
      walk over its first part followed by the walk over the rest, and it
      fails when either part fails. */
  lemma {:induction false} ProcessDirectoryAppend(a: seq<Entry>, b: seq<Entry>)
    ensures ProcessDirectory(a + b) == Combine(ProcessDirectory(a), ProcessDirectory(b))
    decreases |b|
  {
    if b == [] {
      assert a + b == a;
      if ProcessDirectory(a).Some? {
        assert ProcessDirectory(a).value + [] == ProcessDirectory(a).value;
      }
    } else {
      var n := |b| - 1;
      var last := EntryRecords(b[n]);
      assert (a + b)[..|a + b| - 1] == a + b[..n];
      assert ProcessDirectory(a + b) == Combine(ProcessDirectory(a + b[..n]), last);
      ProcessDirectoryAppend(a, b[..n]);
      assert ProcessDirectory(b) == Combine(ProcessDirectory(b[..n]), last);
      CombineAssoc(ProcessDirectory(a), ProcessDirectory(b[..n]), last);
    }
  }
}
