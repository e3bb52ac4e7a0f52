/**
 * File names: the order the merger sorts by, and the `.pdf` suffix filter
 * applied to a directory listing.
 *
 * `String.prototype.localeCompare` is modelled by plain lexicographic order on
 * the names' characters (Unicode scalar values), which is total and
 * deterministic like the comparator the merge relies on.
 */
module FileNames {

  /** `a` sorts no later than `b`: lexicographic order on characters, a prefix first. */
  predicate NameLe(a: string, b: string)
  {
    if a == [] then true
    else if b == [] then false
    else if a[0] != b[0] then a[0] < b[0]
    else NameLe(a[1..], b[1..])
  }

  /** `a` sorts strictly before `b` (`a.localeCompare(b) < 0`). */
  predicate NameLt(a: string, b: string)
  {
    !NameLe(b, a)
  }

  lemma {:induction false} NameLeReflexive(a: string)
    ensures NameLe(a, a)
  {
    if a != [] {
      NameLeReflexive(a[1..]);
    }
  }

  /** Any two names are comparable: the comparator never leaves a pair unordered. */
  lemma {:induction false} NameLeTotal(a: string, b: string)
    ensures NameLe(a, b) || NameLe(b, a)
  {
    if a != [] && b != [] && a[0] == b[0] {
      NameLeTotal(a[1..], b[1..]);
    }
  }

  /** Two names that sort no later than each other are the same name. */
  lemma {:induction false} NameLeAntisymmetric(a: string, b: string)
    requires NameLe(a, b) && NameLe(b, a)
    ensures a == b
  {
    if a != [] && b != [] {
      NameLeAntisymmetric(a[1..], b[1..]);
      assert a == [a[0]] + a[1..] && b == [b[0]] + b[1..];
    }
  }

  lemma {:induction false} NameLeTransitive(a: string, b: string, c: string)
    requires NameLe(a, b) && NameLe(b, c)
    ensures NameLe(a, c)
  {
    if a != [] && b != [] && c != [] && a[0] == b[0] && b[0] == c[0] {
      NameLeTransitive(a[1..], b[1..], c[1..]);
    }
  }

  /** Strictly-before is "not no-later-than the other way round", so it implies no-later-than. */
  lemma NameLtIsLe(a: string, b: string)
    requires NameLt(a, b)
    ensures NameLe(a, b) && a != b
  {
    NameLeTotal(a, b);
    if a == b {
      NameLeReflexive(a);
    }
  }

  /** The suffix the directory scan looks for, matched case-sensitively. */
  const PdfExtension: string := ".pdf"

  /** `name.endsWith(suffix)`. */
  predicate EndsWith(name: string, suffix: string)
  {
    |suffix| <= |name| && name[|name| - |suffix|..] == suffix
  }

  /** `files.filter(filename => filename.endsWith('.pdf'))`, keeping listing order. */
  function PdfFileNames(entries: seq<string>): (r: seq<string>)
    ensures |r| <= |entries|
    ensures forall x :: x in r <==> x in entries && EndsWith(x, PdfExtension)
  {
    if entries == [] then []
    else if EndsWith(entries[0], PdfExtension) then [entries[0]] + PdfFileNames(entries[1..])
    else PdfFileNames(entries[1..])
  }

  /** Filtering a listing made of two parts filters each part and keeps them in that order. */
  lemma {:induction false} PdfFileNamesAppend(a: seq<string>, b: seq<string>)
    ensures PdfFileNames(a + b) == PdfFileNames(a) + PdfFileNames(b)
  {
    if a == [] {
      assert a + b == b;
    } else {
      assert (a + b)[0] == a[0] && (a + b)[1..] == a[1..] + b;
      PdfFileNamesAppend(a[1..], b);
    }
  }

  /** Filtering an already filtered listing changes nothing. */
  lemma {:induction false} PdfFileNamesIdempotent(entries: seq<string>)
    ensures PdfFileNames(PdfFileNames(entries)) == PdfFileNames(entries)
  {
    if entries != [] {
      PdfFileNamesIdempotent(entries[1..]);
      var rest := PdfFileNames(entries[1..]);
      if EndsWith(entries[0], PdfExtension) {
        assert ([entries[0]] + rest)[0] == entries[0] && ([entries[0]] + rest)[1..] == rest;
      }
    }
  }

  /** No name occurs twice. */
  predicate Distinct(names: seq<string>)
  {
    forall i, j :: 0 <= i < j < |names| ==> names[i] != names[j]
  }

  /** The filter keeps distinct names distinct: a directory listing stays duplicate-free. */
  lemma {:induction false} PdfFileNamesDistinct(entries: seq<string>)
    requires Distinct(entries)
    ensures Distinct(PdfFileNames(entries))
  {
    if entries != [] {
      var tail := entries[1..];
      assert forall i :: 0 <= i < |tail| ==> tail[i] == entries[i + 1];
      PdfFileNamesDistinct(tail);
      assert entries[0] !in tail by {
        forall i | 0 <= i < |tail| ensures tail[i] != entries[0] {
          assert tail[i] == entries[i + 1];
        }
      }
      var rest := PdfFileNames(tail);
      if EndsWith(entries[0], PdfExtension) {
        var r := [entries[0]] + rest;
        forall i, j | 0 <= i < j < |r| ensures r[i] != r[j] {
          assert r[j] == rest[j - 1];
          if i > 0 {
            assert r[i] == rest[i - 1];
          } else {
            assert rest[j - 1] in rest;
          }
        }
        assert PdfFileNames(entries) == r;
      } else {
        assert PdfFileNames(entries) == rest;
      }
    }
  }
}
