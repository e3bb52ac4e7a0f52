/**
 * The order `mergePdfFiles` imposes on the collected files:
 * `pdfFiles.sort((a, b) => a.filename.localeCompare(b.filename))`.
 *
 * `Array.prototype.sort` is stable, so files with equal names keep their
 * arrival order. `SortByName` is that stable sort written as insertion sort:
 * each file goes after every earlier file whose name is not greater.
 */
module Sorting {
  import opened PdfTypes
  import opened FileNames

  /** Every file sorts no later than every file after it. */
  predicate Sorted(files: seq<PdfFile>)
  {
    forall i, j :: 0 <= i < j < |files| ==> NameLe(files[i].filename, files[j].filename)
  }

  /** No two entries share a filename (always true of one directory listing). */
  predicate DistinctNames(files: seq<PdfFile>)
  {
    forall i, j :: 0 <= i < j < |files| ==> files[i].filename != files[j].filename
  }

  /**
   * Places `f` into `sorted` after every entry whose name is not greater than
   * its own, scanning from the end as insertion sort does.
   */
  function Insert(sorted: seq<PdfFile>, f: PdfFile): seq<PdfFile>
  {
    if sorted == [] || !NameLt(f.filename, sorted[|sorted| - 1].filename) then sorted + [f]
    else Insert(sorted[..|sorted| - 1], f) + [sorted[|sorted| - 1]]
  }

  /** The stable sort by filename: insert each file, in arrival order, into the sorted prefix. */
  function SortByName(files: seq<PdfFile>): seq<PdfFile>
  {
    if files == [] then []
    else Insert(SortByName(files[..|files| - 1]), files[|files| - 1])
  }

  lemma {:induction false} InsertPermutes(sorted: seq<PdfFile>, f: PdfFile)
    ensures multiset(Insert(sorted, f)) == multiset(sorted) + multiset{f}
  {
    if sorted != [] && NameLt(f.filename, sorted[|sorted| - 1].filename) {
      var init, last := sorted[..|sorted| - 1], sorted[|sorted| - 1];
      InsertPermutes(init, f);
      assert sorted == init + [last];
    }
  }

  lemma {:induction false} InsertSorted(sorted: seq<PdfFile>, f: PdfFile)
    requires Sorted(sorted)
    ensures Sorted(Insert(sorted, f))
  {
    var r := Insert(sorted, f);
    if sorted == [] || !NameLt(f.filename, sorted[|sorted| - 1].filename) {
      if sorted != [] {
        var last := sorted[|sorted| - 1];
        NameLeTotal(f.filename, last.filename);
        forall i | 0 <= i < |sorted| ensures NameLe(sorted[i].filename, f.filename) {
          if i < |sorted| - 1 {
            NameLeTransitive(sorted[i].filename, last.filename, f.filename);
          }
        }
      }
      assert r == sorted + [f];
    } else {
      var init, last := sorted[..|sorted| - 1], sorted[|sorted| - 1];
      InsertSorted(init, f);
      InsertPermutes(init, f);
      var front := Insert(init, f);
      assert r == front + [last];
      NameLtIsLe(f.filename, last.filename);
      forall i, j | 0 <= i < j < |r| ensures NameLe(r[i].filename, r[j].filename) {
        if j < |r| - 1 {
          assert r[i] == front[i] && r[j] == front[j];
        } else {
          assert r[i] == front[i] && r[i] in multiset(front);
          if r[i] != f {
            assert r[i] in multiset(init);
            var k :| 0 <= k < |init| && init[k] == r[i];
            assert init[k] == sorted[k];
          }
        }
      }
    }
  }

  /** The sort returns the same files, each as many times as before. */
  lemma {:induction false} SortByNamePermutes(files: seq<PdfFile>)
    ensures multiset(SortByName(files)) == multiset(files)
  {
    if files != [] {
      var init, last := files[..|files| - 1], files[|files| - 1];
      calc {
        multiset(SortByName(files));
        multiset(Insert(SortByName(init), last));
        { InsertPermutes(SortByName(init), last); }
        multiset(SortByName(init)) + multiset{last};
        { SortByNamePermutes(init); }
        multiset(init) + multiset{last};
        { assert files == init + [last]; }
        multiset(files);
      }
    }
  }

  /** The sort's result is ordered by filename. */
  lemma {:induction false} SortByNameSorted(files: seq<PdfFile>)
    ensures Sorted(SortByName(files))
  {
    if files != [] {
      SortByNameSorted(files[..|files| - 1]);
      InsertSorted(SortByName(files[..|files| - 1]), files[|files| - 1]);
    }
  }

  /** Sorting an already sorted sequence leaves it exactly as it is. */
  lemma {:induction false} SortByNameOfSorted(files: seq<PdfFile>)
    requires Sorted(files)
    ensures SortByName(files) == files
  {
    if files != [] {
      var init, last := files[..|files| - 1], files[|files| - 1];
      assert Sorted(init) by {
        forall i, j | 0 <= i < j < |init| ensures NameLe(init[i].filename, init[j].filename) {
          assert init[i] == files[i] && init[j] == files[j];
        }
      }
      SortByNameOfSorted(init);
      assert SortByName(files) == Insert(init, last);
      if init != [] {
        var prev := init[|init| - 1];
        assert prev == files[|files| - 2];
        assert NameLe(prev.filename, last.filename);
        assert !NameLt(last.filename, prev.filename);
      }
      assert Insert(init, last) == init + [last];
      assert init + [last] == files;
    }
  }

  /** Sorting twice gives what sorting once gives. */
  lemma SortByNameIdempotent(files: seq<PdfFile>)
    ensures SortByName(SortByName(files)) == SortByName(files)
  {
    SortByNameSorted(files);
    SortByNameOfSorted(SortByName(files));
  }

  /** The files named `n`, in the order they appear. */
  function Named(files: seq<PdfFile>, n: string): seq<PdfFile>
  {
    if files == [] then []
    else Named(files[..|files| - 1], n) + (if files[|files| - 1].filename == n then [files[|files| - 1]] else [])
  }

  /**
   * Inserting a file puts it after every file of the same name: the files named
   * `n` are those before, followed by the new one if it is named `n`.
   */
  lemma {:induction false} InsertNamed(sorted: seq<PdfFile>, f: PdfFile, n: string)
    ensures Named(Insert(sorted, f), n) == Named(sorted, n) + (if f.filename == n then [f] else [])
  {
    if sorted == [] || !NameLt(f.filename, sorted[|sorted| - 1].filename) {
      NamedSnoc(sorted, f, n);
    } else {
      var init, last := sorted[..|sorted| - 1], sorted[|sorted| - 1];
      InsertNamed(init, f, n);
      NamedSnoc(Insert(init, f), last, n);
      NamedSnoc(init, last, n);
      assert sorted == init + [last];
      NameLtIsLe(f.filename, last.filename);
    }
  }

  /** Appending one file adds it to the files of its own name. */
  lemma NamedSnoc(files: seq<PdfFile>, f: PdfFile, n: string)
    ensures Named(files + [f], n) == Named(files, n) + (if f.filename == n then [f] else [])
  {
    assert (files + [f])[..|files|] == files;
  }

  /**
   * The sort is stable: the files that share a name come out in the order they
   * arrived in.
   */
  lemma {:induction false} SortByNameStable(files: seq<PdfFile>, n: string)
    ensures Named(SortByName(files), n) == Named(files, n)
  {
    if files != [] {
      var init, last := files[..|files| - 1], files[|files| - 1];
      SortByNameStable(init, n);
      InsertNamed(SortByName(init), last, n);
    }
  }

  /** An entry that occurs once in a name-distinct sequence occurs exactly once. */
  lemma OccursOnce(files: seq<PdfFile>, k: nat)
    requires DistinctNames(files) && k < |files|
    ensures multiset(files)[files[k]] == 1
  {
    var x := files[k];
    var before, after := files[..k], files[k + 1..];
    assert files == before + [x] + after;
    assert x !in before by {
      forall i | 0 <= i < |before| ensures before[i] != x {
        assert before[i] == files[i];
      }
    }
    assert x !in after by {
      forall i | 0 <= i < |after| ensures after[i] != x {
        assert after[i] == files[k + 1 + i];
      }
    }
    assert multiset(before)[x] == 0 && multiset(after)[x] == 0;
  }

  /** An entry found at two positions occurs at least twice. */
  lemma OccursTwice(files: seq<PdfFile>, i: nat, j: nat)
    requires i < j < |files| && files[i] == files[j]
    ensures multiset(files)[files[i]] >= 2
  {
    var front := files[..j];
    assert files == front + [files[j]] + files[j + 1..];
    assert front[i] == files[i];
    assert multiset(front)[files[i]] >= 1;
  }

  /** Reordering a sequence whose names are distinct keeps them distinct. */
  lemma PermutationKeepsNamesDistinct(files: seq<PdfFile>, other: seq<PdfFile>)
    requires multiset(files) == multiset(other)
    requires DistinctNames(files)
    ensures DistinctNames(other)
  {
    forall i, j | 0 <= i < j < |other| ensures other[i].filename != other[j].filename {
      if other[i].filename == other[j].filename {
        assert other[i] in multiset(files) && other[j] in multiset(files);
        var a :| 0 <= a < |files| && files[a] == other[i];
        var b :| 0 <= b < |files| && files[b] == other[j];
        if a == b {
          OccursOnce(files, a);
          OccursTwice(other, i, j);
          assert false;
        }
      }
    }
  }

  /** Dropping the first file keeps a sequence sorted and its names distinct. */
  lemma SortedTail(s: seq<PdfFile>)
    requires s != []
    ensures Sorted(s) ==> Sorted(s[1..])
    ensures DistinctNames(s) ==> DistinctNames(s[1..])
  {
    assert forall i :: 0 <= i < |s| - 1 ==> s[1..][i] == s[i + 1];
  }

  /** In a sorted sequence with distinct names, the first file is the one with the least name. */
  lemma SortedHeadIsLeast(s: seq<PdfFile>, t: seq<PdfFile>)
    requires Sorted(s) && Sorted(t) && DistinctNames(s) && s != [] && t != []
    requires multiset(s) == multiset(t)
    ensures s[0] == t[0]
  {
    assert s[0] in multiset(t) && t[0] in multiset(s);
    var k :| 0 <= k < |t| && t[k] == s[0];
    var m :| 0 <= m < |s| && s[m] == t[0];
    assert NameLe(t[0].filename, s[0].filename) by {
      if k > 0 {
        assert NameLe(t[0].filename, t[k].filename);
      } else {
        NameLeReflexive(t[0].filename);
      }
    }
    assert NameLe(s[0].filename, t[0].filename) by {
      if m > 0 {
        assert NameLe(s[0].filename, s[m].filename);
      } else {
        NameLeReflexive(s[0].filename);
      }
    }
    NameLeAntisymmetric(s[0].filename, t[0].filename);
    assert m == 0;
  }

  /**
   * When names are distinct, a sorted sequence is determined by its contents:
   * two sorted arrangements of the same files are the same sequence.
   */
  lemma {:induction false} SortedUnique(s: seq<PdfFile>, t: seq<PdfFile>)
    requires Sorted(s) && Sorted(t) && DistinctNames(s)
    requires multiset(s) == multiset(t)
    ensures s == t
  {
    assert |t| == |multiset(t)| == |s|;
    if s != [] {
      SortedHeadIsLeast(s, t);
      assert s == [s[0]] + s[1..] && t == [t[0]] + t[1..];
      assert multiset(s[1..]) == multiset(s) - multiset{s[0]};
      assert multiset(t[1..]) == multiset(t) - multiset{t[0]};
      SortedTail(s);
      SortedTail(t);
      SortedUnique(s[1..], t[1..]);
    }
  }

  /**
   * The order in which files were collected does not matter once names are
   * distinct: any two arrival orders of the same files sort to the same sequence.
   */
  lemma SortIgnoresArrivalOrder(arrived: seq<PdfFile>, other: seq<PdfFile>)
    requires multiset(arrived) == multiset(other)
    requires DistinctNames(arrived)
    ensures SortByName(arrived) == SortByName(other)
  {
    SortByNamePermutes(arrived);
    SortByNamePermutes(other);
    SortByNameSorted(arrived);
    SortByNameSorted(other);
    PermutationKeepsNamesDistinct(arrived, SortByName(arrived));
    SortedUnique(SortByName(arrived), SortByName(other));
  }
}
