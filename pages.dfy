/**
 * What a merge produces, as values: the pages copied out of one parsed
 * document, and the page sequence the merged document ends with.
 */
module Pages {
  import opened PdfTypes
  import opened Sorting

  // ---------------------------------------------------------------------------
  // Copying the pages of one document
  // ---------------------------------------------------------------------------

  /** `getPageIndices()`: the indices 0 .. n-1 of a document with n pages, in stored order. */
  function PageIndices(pageCount: nat): (r: seq<nat>)
    ensures |r| == pageCount && forall k :: 0 <= k < pageCount ==> r[k] < pageCount
  {
    seq(pageCount, i => i)
  }

  /** `copyPages(src, indices)`: the pages of `src` at `indices`, in that order. */
  function CopyPages(src: seq<Page>, indices: seq<nat>): seq<Page>
    requires forall k :: 0 <= k < |indices| ==> indices[k] < |src|
  {
    seq(|indices|, k requires 0 <= k < |indices| => src[indices[k]])
  }

  /** Copying every page index of a document yields all of its pages, unreordered and unfiltered. */
  lemma CopyAllPages(src: seq<Page>)
    ensures CopyPages(src, PageIndices(|src|)) == src
  {
  }

  // ---------------------------------------------------------------------------
  // The merged page sequence
  // ---------------------------------------------------------------------------

  /** The file parses. */
  predicate Parses(f: PdfFile, parse: Parser)
  {
    parse(f.content).Success?
  }

  /** Every collected file parses. */
  predicate AllParse(files: seq<PdfFile>, parse: Parser)
  {
    forall f :: f in files ==> Parses(f, parse)
  }

  /** The pages of a file, or none when it does not parse. */
  function PagesOf(f: PdfFile, parse: Parser): seq<Page>
  {
    if Parses(f, parse) then parse(f.content).value else []
  }

  /**
   * The merge loop as a fold over files in the given order: the pages collected
   * so far, or the error of the first file that did not parse. A failing file
   * stops the fold, so later files are never parsed.
   */
  function ConcatPages(files: seq<PdfFile>, parse: Parser): Result<seq<Page>, MergeError>
  {
    if files == [] then Success([])
    else
      match ConcatPages(files[..|files| - 1], parse)
      case Failure(e) => Failure(e)
      case Success(acc) =>
        match parse(files[|files| - 1].content)
        case Failure(msg) => Failure(ParseError(msg))
        case Success(pages) => Success(acc + pages)
  }

  /** Reference definition: every file's pages, file after file. */
  function FlattenPages(files: seq<PdfFile>, parse: Parser): seq<Page>
  {
    if files == [] then [] else PagesOf(files[0], parse) + FlattenPages(files[1..], parse)
  }

  /** Sum of the files' page counts. */
  function TotalPageCount(files: seq<PdfFile>, parse: Parser): nat
  {
    if files == [] then 0 else |PagesOf(files[0], parse)| + TotalPageCount(files[1..], parse)
  }

  lemma {:induction false} FlattenAppend(a: seq<PdfFile>, b: seq<PdfFile>, parse: Parser)
    ensures FlattenPages(a + b, parse) == FlattenPages(a, parse) + FlattenPages(b, parse)
    ensures TotalPageCount(a + b, parse) == TotalPageCount(a, parse) + TotalPageCount(b, parse)
  {
    if a != [] {
      assert (a + b)[0] == a[0] && (a + b)[1..] == a[1..] + b;
      FlattenAppend(a[1..], b, parse);
    } else {
      assert a + b == b;
    }
  }

  /** The merged page count is the sum of the inputs' page counts. */
  lemma {:induction false} FlattenLength(files: seq<PdfFile>, parse: Parser)
    ensures |FlattenPages(files, parse)| == TotalPageCount(files, parse)
  {
    if files != [] {
      FlattenLength(files[1..], parse);
    }
  }

  /** The total page count does not depend on the order the files are listed in. */
  lemma {:induction false} TotalPageCountPermutation(s: seq<PdfFile>, t: seq<PdfFile>, parse: Parser)
    requires multiset(s) == multiset(t)
    ensures TotalPageCount(s, parse) == TotalPageCount(t, parse)
  {
    if s == [] {
      assert |t| == |multiset(t)| == 0;
    } else {
      assert s[0] in multiset(t);
      var k :| 0 <= k < |t| && t[k] == s[0];
      var rest := t[..k] + t[k + 1..];
      assert t == t[..k] + ([t[k]] + t[k + 1..]);
      FlattenAppend(t[..k], [t[k]] + t[k + 1..], parse);
      FlattenAppend(t[..k], t[k + 1..], parse);
      assert TotalPageCount([t[k]] + t[k + 1..], parse) == |PagesOf(t[k], parse)| + TotalPageCount(t[k + 1..], parse) by {
        assert ([t[k]] + t[k + 1..])[1..] == t[k + 1..];
      }
      assert s == [s[0]] + s[1..];
      assert multiset(rest) == multiset(t) - multiset{t[k]};
      assert multiset(s[1..]) == multiset(s) - multiset{s[0]};
      TotalPageCountPermutation(s[1..], rest, parse);
    }
  }

  /** When every file parses, the fold yields every file's pages, file after file. */
  lemma {:induction false} ConcatPagesSucceeds(files: seq<PdfFile>, parse: Parser)
    requires AllParse(files, parse)
    ensures ConcatPages(files, parse) == Success(FlattenPages(files, parse))
  {
    if files != [] {
      var init, last := files[..|files| - 1], files[|files| - 1];
      assert files == init + [last];
      assert AllParse(init, parse) by {
        forall f | f in init ensures Parses(f, parse) {
          assert f in files;
        }
      }
      ConcatPagesSucceeds(init, parse);
      assert last in files;
      FlattenAppend(init, [last], parse);
      assert FlattenPages([last], parse) == PagesOf(last, parse) by {
        assert [last][1..] == [];
      }
    }
  }

  /**
   * The fold stops at the first file that does not parse and fails with that
   * file's error, whatever the files after it hold.
   */
  lemma {:induction false} ConcatPagesFailsAtFirstBadFile(files: seq<PdfFile>, parse: Parser, k: nat)
    requires k < |files| && !Parses(files[k], parse)
    requires forall i :: 0 <= i < k ==> Parses(files[i], parse)
    ensures ConcatPages(files, parse) == Failure(ParseError(parse(files[k].content).error))
  {
    var init := files[..|files| - 1];
    if k == |files| - 1 {
      assert AllParse(init, parse) by {
        forall f | f in init ensures Parses(f, parse) {
          var i :| 0 <= i < |init| && init[i] == f;
          assert files[i] == f;
        }
      }
      ConcatPagesSucceeds(init, parse);
    } else {
      assert init[k] == files[k];
      ConcatPagesFailsAtFirstBadFile(init, parse, k);
    }
  }

  /** One more file of the fold: its pages are appended, or its parse error ends the fold. */
  lemma ConcatPagesStep(files: seq<PdfFile>, parse: Parser, i: nat, acc: seq<Page>)
    requires i < |files| && ConcatPages(files[..i], parse) == Success(acc)
    ensures parse(files[i].content).Failure? ==>
              ConcatPages(files[..i + 1], parse) == Failure(ParseError(parse(files[i].content).error))
    ensures parse(files[i].content).Success? ==>
              ConcatPages(files[..i + 1], parse) == Success(acc + parse(files[i].content).value)
  {
    assert files[..i + 1][..i] == files[..i];
  }

  /** Once the fold has failed on a prefix, the files after it change nothing. */
  lemma {:induction false} ConcatPagesFailureStops(files: seq<PdfFile>, parse: Parser, n: nat)
    requires n <= |files| && ConcatPages(files[..n], parse).Failure?
    ensures ConcatPages(files, parse) == ConcatPages(files[..n], parse)
  {
    if n < |files| {
      var init := files[..|files| - 1];
      assert init[..n] == files[..n];
      ConcatPagesFailureStops(init, parse, n);
    } else {
      assert files[..n] == files;
    }
  }

  /** The fold succeeds exactly when every file parses. */
  lemma ConcatPagesSucceedsIff(files: seq<PdfFile>, parse: Parser)
    ensures ConcatPages(files, parse).Success? <==> AllParse(files, parse)
  {
    if AllParse(files, parse) {
      ConcatPagesSucceeds(files, parse);
    } else {
      var bad :| bad in files && !Parses(bad, parse);
      var k := FirstBadIndex(files, parse, bad);
      ConcatPagesFailsAtFirstBadFile(files, parse, k);
    }
  }

  /** Index of the first file that does not parse, given that one exists. */
  function FirstBadIndex(files: seq<PdfFile>, parse: Parser, bad: PdfFile): (k: nat)
    requires bad in files && !Parses(bad, parse)
    ensures k < |files| && !Parses(files[k], parse)
    ensures forall i :: 0 <= i < k ==> Parses(files[i], parse)
  {
    if !Parses(files[0], parse) then 0
    else
      assert bad in files[1..];
      1 + FirstBadIndex(files[1..], parse, bad)
  }

  // ---------------------------------------------------------------------------
  // The whole merge
  // ---------------------------------------------------------------------------

  /**
   * The outcome of `mergePdfFiles` on the collected files: the empty set is an
   * error; otherwise the files are sorted by name and folded page by page.
   */
  function MergeSpec(files: seq<PdfFile>, parse: Parser): Result<seq<Page>, MergeError>
  {
    if |files| == 0 then Failure(NoPdfFiles) else ConcatPages(SortByName(files), parse)
  }

  /** The sorted files are the collected files, so they parse exactly when those do. */
  lemma SortedAllParse(files: seq<PdfFile>, parse: Parser)
    ensures AllParse(SortByName(files), parse) <==> AllParse(files, parse)
  {
    SortByNamePermutes(files);
    forall f ensures f in SortByName(files) <==> f in files {
      assert f in SortByName(files) <==> f in multiset(SortByName(files));
    }
  }

  /**
   * A merge of a non-empty set in which every file parses produces the pages of
   * all files in filename order, each file's pages in stored order, and as many
   * pages as all inputs together.
   */
  lemma MergeProducesAllPagesInNameOrder(files: seq<PdfFile>, parse: Parser)
    requires |files| > 0 && AllParse(files, parse)
    ensures MergeSpec(files, parse) == Success(FlattenPages(SortByName(files), parse))
    ensures |MergeSpec(files, parse).value| == TotalPageCount(files, parse)
  {
    SortedAllParse(files, parse);
    ConcatPagesSucceeds(SortByName(files), parse);
    FlattenLength(SortByName(files), parse);
    SortByNamePermutes(files);
    TotalPageCountPermutation(SortByName(files), files, parse);
  }

  /** Merging an empty set fails with "No PDF files to merge". */
  lemma MergeOfNothingFails(files: seq<PdfFile>, parse: Parser)
    requires |files| == 0
    ensures MergeSpec(files, parse) == Failure(NoPdfFiles)
    ensures MergeSpec(files, parse).error.Message() == "No PDF files to merge"
  {
  }

  /**
   * A merge fails exactly when the set is empty or some file does not parse;
   * a file that does not parse makes the merge fail with that file's error,
   * unless an earlier file in name order failed first.
   */
  lemma MergeFailsIff(files: seq<PdfFile>, parse: Parser)
    ensures MergeSpec(files, parse).Failure? <==> |files| == 0 || !AllParse(files, parse)
  {
    if |files| > 0 {
      SortedAllParse(files, parse);
      ConcatPagesSucceedsIff(SortByName(files), parse);
    }
  }

  /** The error reported is that of the first file, in name order, that does not parse. */
  lemma MergeReportsFirstBadFile(files: seq<PdfFile>, parse: Parser, k: nat)
    requires k < |SortByName(files)|
    requires !Parses(SortByName(files)[k], parse)
    requires forall i :: 0 <= i < k ==> Parses(SortByName(files)[i], parse)
    ensures MergeSpec(files, parse) == Failure(ParseError(parse(SortByName(files)[k].content).error))
  {
    ConcatPagesFailsAtFirstBadFile(SortByName(files), parse, k);
  }

  /** Merging one file yields exactly that file's pages, or its parse error. */
  lemma MergeSingleFile(f: PdfFile, parse: Parser)
    ensures Parses(f, parse) ==> MergeSpec([f], parse) == Success(parse(f.content).value)
    ensures !Parses(f, parse) ==> MergeSpec([f], parse) == Failure(ParseError(parse(f.content).error))
  {
    assert [f][..0] == [];
    assert SortByName([f]) == Insert([], f) == [f];
    assert ConcatPages([f], parse) == match parse(f.content)
      case Failure(msg) => Failure(ParseError(msg))
      case Success(pages) => Success([] + pages);
    if Parses(f, parse) {
      assert [] + parse(f.content).value == parse(f.content).value;
    }
  }

  /**
   * Loads may finish in any order: when the collected names are distinct, every
   * arrival order of the same files merges to the same result.
   */
  lemma MergeIgnoresArrivalOrder(arrived: seq<PdfFile>, other: seq<PdfFile>, parse: Parser)
    requires multiset(arrived) == multiset(other)
    requires DistinctNames(arrived)
    ensures MergeSpec(arrived, parse) == MergeSpec(other, parse)
  {
    SortIgnoresArrivalOrder(arrived, other);
    assert |arrived| == |multiset(arrived)| == |other|;
  }

  /** Merging again the set a merge left sorted gives the same result. */
  lemma MergeIdempotent(files: seq<PdfFile>, parse: Parser)
    ensures MergeSpec(SortByName(files), parse) == MergeSpec(files, parse)
  {
    SortByNameIdempotent(files);
    SortByNamePermutes(files);
    assert |SortByName(files)| == |multiset(files)| == |files|;
  }

  /** The fold over two parsing files puts the first one's pages first. */
  lemma ConcatTwo(fa: PdfFile, fb: PdfFile, parse: Parser)
    requires Parses(fa, parse) && Parses(fb, parse)
    ensures ConcatPages([fa, fb], parse) == Success(parse(fa.content).value + parse(fb.content).value)
  {
    assert [fa, fb][..1] == [fa] && [fa][..0] == [];
    assert [] + parse(fa.content).value == parse(fa.content).value;
    assert ConcatPages([fa], parse) == Success(parse(fa.content).value);
  }

  /**
   * Two files whose names are in order, the first with pages p1, p2 and the
   * second with page p3: in either arrival order the merge yields p1, p2, p3.
   */
  lemma TwoFilesInEitherOrder(fa: PdfFile, fb: PdfFile, p1: Page, p2: Page, p3: Page, parse: Parser)
    requires FileNames.NameLt(fa.filename, fb.filename)
    requires parse(fa.content) == Success([p1, p2]) && parse(fb.content) == Success([p3])
    ensures MergeSpec([fb, fa], parse) == Success([p1, p2, p3])
    ensures MergeSpec([fa, fb], parse) == Success([p1, p2, p3])
  {
    TwoFilesSorted(fa, fb);
    ConcatTwo(fa, fb, parse);
    assert [p1, p2] + [p3] == [p1, p2, p3];
    assert MergeSpec([fa, fb], parse) == Success([p1, p2, p3]);
    FileNames.NameLtIsLe(fa.filename, fb.filename);
    TwoFilesSwapped(fa, fb, parse);
  }

  /** Two files whose names are in order are already sorted. */
  lemma TwoFilesSorted(fa: PdfFile, fb: PdfFile)
    requires FileNames.NameLt(fa.filename, fb.filename)
    ensures SortByName([fa, fb]) == [fa, fb]
  {
    FileNames.NameLtIsLe(fa.filename, fb.filename);
    assert Sorted([fa, fb]);
    SortByNameOfSorted([fa, fb]);
  }

  /** Two files with different names merge alike in either arrival order. */
  lemma TwoFilesSwapped(fa: PdfFile, fb: PdfFile, parse: Parser)
    requires fa.filename != fb.filename
    ensures MergeSpec([fb, fa], parse) == MergeSpec([fa, fb], parse)
  {
    assert multiset([fb, fa]) == multiset([fa, fb]);
    assert DistinctNames([fa, fb]);
    MergeIgnoresArrivalOrder([fa, fb], [fb, fa], parse);
  }

  /** The "a.pdf" (two pages) and "b.pdf" (one page) case: three pages, a's first. */
  lemma TwoFileExample(a: seq<byte>, b: seq<byte>, p1: Page, p2: Page, p3: Page, parse: Parser)
    requires parse(a) == Success([p1, p2]) && parse(b) == Success([p3])
    ensures MergeSpec([PdfFile("b.pdf", b), PdfFile("a.pdf", a)], parse) == Success([p1, p2, p3])
    ensures MergeSpec([PdfFile("a.pdf", a), PdfFile("b.pdf", b)], parse) == Success([p1, p2, p3])
  {
    assert FileNames.NameLt("a.pdf", "b.pdf");
    TwoFilesInEitherOrder(PdfFile("a.pdf", a), PdfFile("b.pdf", b), p1, p2, p3, parse);
  }
}
