/** POSIX path helpers of the Python standard library as the pipeline uses
    them (`os.path.basename`, `os.path.splitext`), and `is_valid_pdf`, the
    filter that keeps original PDFs and skips the black-and-white and text
    renderings the pipeline writes beside them. */
module Paths {
  import opened Strings

  /** `s.rfind(c)`: the last index of `c` in `s`, or -1. */
  function RFind(s: string, c: char): (i: int)
    ensures -1 <= i < |s|
    ensures i >= 0 ==> s[i] == c
    ensures forall j :: i < j < |s| ==> s[j] != c
  {
    if s == [] then -1
    else if s[|s| - 1] == c then |s| - 1
    else RFind(s[..|s| - 1], c)
  }

  /** `os.path.basename(p)`: everything after the last `/`. */
  function BaseName(p: string): (b: string)
    ensures '/' !in b
    ensures EndsWith(p, b)
    ensures |b| < |p| ==> p[|p| - |b| - 1] == '/'
  {
    p[RFind(p, '/') + 1..]
  }

  /** Some character of `p[lo..hi]` is not a dot. */
  predicate HasNonDot(p: string, lo: int, hi: int)
    requires 0 <= lo && hi <= |p|
  {
    exists k :: lo <= k < hi && p[k] != '.'
  }

  /** `os.path.splitext(p)[0]`: `p` without its extension, where the
      extension starts at the last dot of the base name, provided that dot
      is not part of the base name's leading dots. */
  function SplitExtRoot(p: string): (root: string)
    ensures |root| <= |p| && root == p[..|root|]
  {
    var sep := RFind(p, '/');
    var dot := RFind(p, '.');
    if dot > sep && HasNonDot(p, sep + 1, dot) then p[..dot] else p
  }

  /** `is_valid_pdf(filename)`. */
  predicate IsValidPdf(filename: string)
  {
    var base := SplitExtRoot(filename);
    !EndsWith(base, "_bw") && !EndsWith(base, "_text") && EndsWith(Lower(filename), ".pdf")
  }

  predicate IsPdfLetter(c: char, lower: char)
  {
    LowerChar(c) == lower
  }

  /** A name whose lower-cased form ends in `.pdf` ends in a dot followed by
      `p`, `d`, `f` in either case. */
  lemma PdfEnding(f: string)
    requires EndsWith(Lower(f), ".pdf")
    ensures |f| >= 4 && f[|f| - 4] == '.'
    ensures IsPdfLetter(f[|f| - 3], 'p') && IsPdfLetter(f[|f| - 2], 'd') && IsPdfLetter(f[|f| - 1], 'f')
  {
    var n := |f|;
    assert Lower(f)[n - 4..] == ".pdf";
    assert Lower(f)[n - 4] == '.' && Lower(f)[n - 3] == 'p' && Lower(f)[n - 2] == 'd' && Lower(f)[n - 1] == 'f';
  }

  /** `is_valid_pdf` accepts exactly the names that end in `.pdf` in any
      case and whose stem, the name less those four characters, ends in
      neither `_bw` nor `_text`; those two suffixes are matched case
      sensitively. */
  lemma IsValidPdfIff(f: string)
    ensures IsValidPdf(f) <==>
              EndsWith(Lower(f), ".pdf") && !EndsWith(f[..|f| - 4], "_bw") && !EndsWith(f[..|f| - 4], "_text")
  {
    if EndsWith(Lower(f), ".pdf") {
      PdfEnding(f);
      var n := |f|;
      var sep := RFind(f, '/');
      var dot := RFind(f, '.');
      assert dot == n - 4;
      assert dot > sep;
      var stem := f[..n - 4];
      if !HasNonDot(f, sep + 1, dot) {
        // The base name is its leading dots and the extension: the root is
        // the whole name, which ends in a letter of `pdf`, and the stem ends
        // in a dot, in the separator, or is empty.
        assert SplitExtRoot(f) == f;
        assert f[n - 1] != 'w' && f[n - 1] != 't';
        assert stem == [] || stem[|stem| - 1] == '.' || stem[|stem| - 1] == '/' by {
          if stem != [] && sep < n - 5 {
            assert f[n - 5] == '.';
          }
        }
        assert !EndsWith(f, "_bw") && !EndsWith(f, "_text");
        assert !EndsWith(stem, "_bw") && !EndsWith(stem, "_text");
      } else {
        assert SplitExtRoot(f) == stem;
      }
    }
  }
}
