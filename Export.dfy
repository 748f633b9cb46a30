/** Export of the region images of one page: regions whose scaled rectangle
    is empty are skipped, and each remaining region gets its file name (a
    table cell its own, any other region `{page}_{padded position}_{code}.png`). */
module Export {
  import opened Wrappers
  import opened Geometry
  import opened Regions
  import opened Labels
  import opened Decimal
  import opened Strings
  import opened Tables

  /** `num_digits = len(str(num_images))`. */
  function NumDigits(count: nat): (d: nat)
    ensures d >= 1
  {
    |NatToString(count)|
  }

  /** The crop is taken only when the scaled rectangle has positive width and
      height (`scaled_x2 <= scaled_x1 or scaled_y2 <= scaled_y1` skips it). */
  predicate Exportable(scaled: Box)
  {
    scaled.x1 < scaled.x2 && scaled.y1 < scaled.y2
  }

  /** `f"{page_number}_{str(position).zfill(num_digits)}_{shortened_label}.png"`. */
  function RegionFileName(page: int, position: int, numDigits: nat, kind: string): string
  {
    IntToString(page) + "_" + ZFill(IntToString(position), numDigits) + "_" + ShortenedLabel(kind) + ".png"
  }

  /** The file name of one final region.  A table cell (label `'a'`) carries
      its own name.  `None`: a whole region whose label is `'a'` would take
      its numeric id as a file name, which the path join rejects. */
  function ExportName(e: FinalRegion, page: int, numDigits: nat): (name: Option<string>)
    ensures e.Cell? ==> name == Some(e.filename)
    ensures e.Whole? ==> (name.None? <==> e.region.kind == "a")
  {
    match e
      case Cell(_, filename, _, _) => Some(filename)
      case Whole(r) => if r.kind == "a" then None else Some(RegionFileName(page, r.position, numDigits, r.kind))
  }

  /** The names written for the page, in region order (`None` if the loop
      fails on such a region).  `scaled[i]` is the integer rectangle of
      `final[i]` in raw-image pixels. */
  function ExportedNames(final: seq<FinalRegion>, scaled: seq<Box>, page: int, numDigits: nat): Option<seq<string>>
    requires |scaled| == |final|
  {
    if final == [] then Some([])
    else
      var n := |final| - 1;
      match ExportedNames(final[..n], scaled[..n], page, numDigits)
        case None => None
        case Some(names) =>
          if !Exportable(scaled[n]) then Some(names)
          else match ExportName(final[n], page, numDigits)
            case None => None
            case Some(name) => Some(names + [name])
  }

  /** Export fails exactly when some exportable region is a whole region
      labelled `'a'`; otherwise every exportable region, and no other,
      contributes its name. */
  lemma ExportedNamesExact(final: seq<FinalRegion>, scaled: seq<Box>, page: int, numDigits: nat)
    requires |scaled| == |final|
    ensures ExportedNames(final, scaled, page, numDigits).None? <==>
      exists i :: 0 <= i < |final| && Exportable(scaled[i]) && ExportName(final[i], page, numDigits).None?
    ensures ExportedNames(final, scaled, page, numDigits).Some? ==>
      var names := ExportedNames(final, scaled, page, numDigits).value;
      |names| <= |final|
      && (forall i :: 0 <= i < |final| && Exportable(scaled[i]) ==> ExportName(final[i], page, numDigits).value in names)
      && (forall name :: name in names ==>
            exists i :: 0 <= i < |final| && Exportable(scaled[i]) && ExportName(final[i], page, numDigits) == Some(name))
  {
    ExportFailsIff(final, scaled, page, numDigits);
    ExportedNamesCover(final, scaled, page, numDigits);
    ExportedNamesFrom(final, scaled, page, numDigits);
  }

  lemma {:induction false} ExportFailsIff(final: seq<FinalRegion>, scaled: seq<Box>, page: int, numDigits: nat)
    requires |scaled| == |final|
    ensures ExportedNames(final, scaled, page, numDigits).None? <==>
      exists i :: 0 <= i < |final| && Exportable(scaled[i]) && ExportName(final[i], page, numDigits).None?
  {
    if final != [] {
      var n := |final| - 1;
      ExportFailsIff(final[..n], scaled[..n], page, numDigits);
      assert forall i :: 0 <= i < n ==> final[..n][i] == final[i] && scaled[..n][i] == scaled[i];
    }
  }

  lemma {:induction false} ExportedNamesCover(final: seq<FinalRegion>, scaled: seq<Box>, page: int, numDigits: nat)
    requires |scaled| == |final|
    ensures ExportedNames(final, scaled, page, numDigits).Some? ==>
      var names := ExportedNames(final, scaled, page, numDigits).value;
      |names| <= |final|
      && forall i :: 0 <= i < |final| && Exportable(scaled[i]) ==>
           ExportName(final[i], page, numDigits).Some? && ExportName(final[i], page, numDigits).value in names
  {
    if final != [] {
      var n := |final| - 1;
      ExportedNamesCover(final[..n], scaled[..n], page, numDigits);
      assert forall i :: 0 <= i < n ==> final[..n][i] == final[i] && scaled[..n][i] == scaled[i];
    }
  }

  lemma {:induction false} ExportedNamesFrom(final: seq<FinalRegion>, scaled: seq<Box>, page: int, numDigits: nat)
    requires |scaled| == |final|
    ensures ExportedNames(final, scaled, page, numDigits).Some? ==>
      forall name :: name in ExportedNames(final, scaled, page, numDigits).value ==>
        exists i :: 0 <= i < |final| && Exportable(scaled[i]) && ExportName(final[i], page, numDigits) == Some(name)
  {
    if final != [] {
      var n := |final| - 1;
      ExportedNamesFrom(final[..n], scaled[..n], page, numDigits);
      assert forall i :: 0 <= i < n ==> final[..n][i] == final[i] && scaled[..n][i] == scaled[i];
    }
  }

  /** Once the loop has failed, the page fails. */
  lemma {:induction false} FailureIsFinal(final: seq<FinalRegion>, scaled: seq<Box>, page: int, numDigits: nat, i: nat)
    requires |scaled| == |final| && i <= |final|
    requires ExportedNames(final[..i], scaled[..i], page, numDigits).None?
    ensures ExportedNames(final, scaled, page, numDigits).None?
  {
    if i < |final| {
      var n := |final| - 1;
      assert final[..n][..i] == final[..i] && scaled[..n][..i] == scaled[..i];
      FailureIsFinal(final[..n], scaled[..n], page, numDigits, i);
    } else {
      assert final[..i] == final && scaled[..i] == scaled;
    }
  }

  /** The loop over `final_regions`: skip empty crops, name the rest. */
  method ExportRegionNames(final: seq<FinalRegion>, scaled: seq<Box>, page: int) returns (names: Option<seq<string>>)
    requires |scaled| == |final|
    ensures names == ExportedNames(final, scaled, page, NumDigits(|final|))
  {
    var numDigits := |NatToString(|final|)|;
    var written: seq<string> := [];
    var i := 0;
    while i < |final|
      invariant 0 <= i <= |final|
      invariant ExportedNames(final[..i], scaled[..i], page, numDigits) == Some(written)
    {
      assert final[..i + 1][..i] == final[..i] && scaled[..i + 1][..i] == scaled[..i];
      if Exportable(scaled[i]) {
        var name := ExportName(final[i], page, numDigits);
        if name.None? {
          assert ExportedNames(final[..i + 1], scaled[..i + 1], page, numDigits).None?;
          FailureIsFinal(final, scaled, page, numDigits, i + 1);
          return None;
        }
        written := written + [name.value];
      }
      i := i + 1;
    }
    assert final[..i] == final && scaled[..i] == scaled;
    names := Some(written);
  }

  lemma CodeHasNoUnderscore(kind: string)
    ensures '_' !in ShortenedLabel(kind) + ".png"
  {
  }

  /** The name splits at `_` into page, padded position and code. */
  lemma RegionFileNameSplit(page: int, position: nat, numDigits: nat, kind: string)
    ensures Split(RegionFileName(page, position, numDigits, kind), '_')
         == [IntToString(page), ZFill(NatToString(position), numDigits), ShortenedLabel(kind) + ".png"]
  {
    var a, b, code := IntToString(page), ZFill(NatToString(position), numDigits), ShortenedLabel(kind);
    var c := code + ".png";
    NoUnderscore(page);
    ParseZFill(position, numDigits);
    DigitsNoUnderscore(b);
    CodeHasNoUnderscore(kind);
    calc {
      RegionFileName(page, position, numDigits, kind);
      (a + "_" + b + "_" + code) + ".png";
      { ConcatAssoc(a + "_" + b + "_", code, ".png"); }
      a + "_" + b + "_" + c;
      { JoinThree(a, b, c); }
      Join("_", [a, b, c]);
    }
    SplitJoin([a, b, c], '_');
  }

  lemma DigitsNoUnderscore(s: string)
    requires AllDigits(s)
    ensures '_' !in s
  {
  }

  lemma JoinThree(a: string, b: string, c: string)
    ensures Join("_", [a, b, c]) == a + "_" + b + "_" + c
  {
    assert [a, b, c][1..] == [b, c] && [b, c][1..] == [c];
    assert Join("_", [b, c]) == b + "_" + c;
    assert (a + "_") + (b + "_" + c) == a + "_" + b + "_" + c;
  }

  /** Two regions of a page get the same file name only when they have the
      same position and the same label code, and a region name is never a
      table-cell name.  (Labels outside the known twelve all share code `u`.) */
  lemma RegionFileNameInjective(page: int, p: nat, q: nat, numDigits: nat, k1: string, k2: string)
    requires RegionFileName(page, p, numDigits, k1) == RegionFileName(page, q, numDigits, k2)
    ensures p == q && ShortenedLabel(k1) == ShortenedLabel(k2)
  {
    RegionFileNameSplit(page, p, numDigits, k1);
    RegionFileNameSplit(page, q, numDigits, k2);
    ParseZFill(p, numDigits);
    ParseZFill(q, numDigits);
    var c1, c2 := ShortenedLabel(k1) + ".png", ShortenedLabel(k2) + ".png";
    assert c1 == c2;
    assert ShortenedLabel(k1) == c1[..|c1| - 4];
    assert ShortenedLabel(k2) == c2[..|c2| - 4];
  }

  lemma RegionNameIsNotCellName(page: int, p: nat, numDigits: nat, kind: string, page': int, a: int, r: int, c: int)
    ensures RegionFileName(page, p, numDigits, kind) != CellFileName(page', a, r, c)
  {
    RegionFileNameSplit(page, p, numDigits, kind);
    CellFileNameSplit(page', a, r, c);
  }

  /** Positions padded to the page's digit count sort as strings in the same
      order as numbers. */
  lemma PaddedPositionOrder(p: nat, q: nat, count: nat)
    requires |NatToString(p)| <= NumDigits(count) && |NatToString(q)| <= NumDigits(count)
    ensures LexLess(ZFill(IntToString(p), NumDigits(count)), ZFill(IntToString(q), NumDigits(count))) <==> p < q
  {
    ZFillOrder(p, q, NumDigits(count));
  }
}
