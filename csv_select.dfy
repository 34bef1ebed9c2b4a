/** Which report file `read_csv` opens (compress.py): of the directory
    entries, in listing order, keep the names ending in `.csv`, keep those
    that contain the image name, and take the first.  Python raises an
    IndexError when nothing is left; here that is `None`. */
module CsvSelect {

  datatype Option<T> = None | Some(value: T)

  /** Python's `s.endswith(suffix)`. */
  predicate EndsWith(s: string, suffix: string)
    ensures EndsWith(s, suffix) <==> exists prefix :: prefix + suffix == s
  {
    |suffix| <= |s| && (s[..|s| - |suffix|] + suffix == s)
  }

  predicate IsPrefix(prefix: string, s: string)
  {
    |prefix| <= |s| && s[..|prefix|] == prefix
  }

  /** Python's `sub in s` on strings: `sub` occurs somewhere in `s`. */
  predicate Contains(s: string, sub: string)
    ensures Contains(s, sub) ==> |sub| <= |s|
    ensures |sub| == 0 ==> Contains(s, sub)
    decreases |s|
  {
    IsPrefix(sub, s) || (|s| > 0 && Contains(s[1..], sub))
  }

  /** `sub` occurs in `s` starting at index `i`. */
  predicate OccursAt(s: string, sub: string, i: int)
  {
    0 <= i && i + |sub| <= |s| && s[i..i + |sub|] == sub
  }

  /** `Contains` finds exactly the substrings that occur at some index. */
  lemma {:induction false} ContainsIffOccurs(s: string, sub: string)
    ensures Contains(s, sub) <==> exists i :: OccursAt(s, sub, i)
    decreases |s|
  {
    if IsPrefix(sub, s) {
      assert OccursAt(s, sub, 0);
    } else if |s| > 0 {
      ContainsIffOccurs(s[1..], sub);
      if Contains(s[1..], sub) {
        var i :| OccursAt(s[1..], sub, i);
        assert s[i + 1..i + 1 + |sub|] == s[1..][i..i + |sub|];
        assert OccursAt(s, sub, i + 1);
      }
      if i :| OccursAt(s, sub, i) {
        assert i != 0;
        assert s[1..][i - 1..i - 1 + |sub|] == s[i..i + |sub|];
        assert OccursAt(s[1..], sub, i - 1);
      }
    }
  }

  /** The test a directory entry must pass to be chosen. */
  predicate Qualifies(file: string, image: string)
  {
    EndsWith(file, ".csv") && Contains(file, image)
  }

  /** `[file for file in listing if file.endswith('.csv')]`. */
  function CsvFiles(listing: seq<string>): (r: seq<string>)
    ensures |r| <= |listing|
    ensures forall f :: f in r <==> f in listing && EndsWith(f, ".csv")
  {
    if listing == [] then []
    else if EndsWith(listing[0], ".csv") then [listing[0]] + CsvFiles(listing[1..])
    else CsvFiles(listing[1..])
  }

  /** `list(filter(lambda file: image in file, files))`. */
  function Matching(files: seq<string>, image: string): (r: seq<string>)
    ensures |r| <= |files|
    ensures forall f :: f in r <==> f in files && Contains(f, image)
  {
    if files == [] then []
    else if Contains(files[0], image) then [files[0]] + Matching(files[1..], image)
    else Matching(files[1..], image)
  }

  /** The comprehension keeps listing order and duplicates: it distributes
      over concatenation. */
  lemma {:induction false} CsvFilesAppend(xs: seq<string>, ys: seq<string>)
    ensures CsvFiles(xs + ys) == CsvFiles(xs) + CsvFiles(ys)
    decreases |xs|
  {
    if xs != [] {
      assert (xs + ys)[1..] == xs[1..] + ys;
      CsvFilesAppend(xs[1..], ys);
    } else {
      assert xs + ys == ys;
    }
  }

  /** The filter keeps order and duplicates: it distributes over concatenation. */
  lemma {:induction false} MatchingAppend(xs: seq<string>, ys: seq<string>, image: string)
    ensures Matching(xs + ys, image) == Matching(xs, image) + Matching(ys, image)
    decreases |xs|
  {
    if xs != [] {
      assert (xs + ys)[1..] == xs[1..] + ys;
      MatchingAppend(xs[1..], ys, image);
    } else {
      assert xs + ys == ys;
    }
  }

  /** The chosen file name: element 0 of the filtered list, if there is one. */
  function SelectCsvFile(listing: seq<string>, image: string): (r: Option<string>)
    ensures r.Some? ==> r.value in listing && Qualifies(r.value, image)
  {
    var candidates := Matching(CsvFiles(listing), image);
    if |candidates| == 0 then None else Some(candidates[0])
  }

  /** The two filters one entry at a time: the first entry is chosen if it
      qualifies, otherwise the choice is made among the remaining entries. */
  lemma SelectUnfold(listing: seq<string>, image: string)
    requires listing != []
    ensures SelectCsvFile(listing, image) ==
              if Qualifies(listing[0], image) then Some(listing[0])
              else SelectCsvFile(listing[1..], image)
  {
  }

  /** Selection fails exactly when no entry qualifies. */
  lemma {:induction false} SelectFailsIffNoneQualifies(listing: seq<string>, image: string)
    ensures SelectCsvFile(listing, image).None? <==>
              forall i :: 0 <= i < |listing| ==> !Qualifies(listing[i], image)
    decreases |listing|
  {
    if listing != [] {
      SelectUnfold(listing, image);
      SelectFailsIffNoneQualifies(listing[1..], image);
      if !Qualifies(listing[0], image) {
        forall i | 0 < i < |listing|
          ensures listing[i] == listing[1..][i - 1]
        {
        }
      }
    }
  }

  /** The entry chosen is the first qualifying one in listing order; any later
      qualifying entry is ignored. */
  lemma {:induction false} SelectIsFirstQualifying(listing: seq<string>, image: string, i: int)
    requires 0 <= i < |listing| && Qualifies(listing[i], image)
    requires forall j :: 0 <= j < i ==> !Qualifies(listing[j], image)
    ensures SelectCsvFile(listing, image) == Some(listing[i])
    decreases i
  {
    SelectUnfold(listing, image);
    if i > 0 {
      SelectIsFirstQualifying(listing[1..], image, i - 1);
    }
  }

  /** Of two report names, the one containing the image name "a" is chosen. */
  lemma SelectExample()
    ensures SelectCsvFile(["a_report.csv", "b_report.csv"], "a") == Some("a_report.csv")
  {
    assert IsPrefix("a", "a_report.csv");
    SelectIsFirstQualifying(["a_report.csv", "b_report.csv"], "a", 0);
  }

  /** A non-CSV entry is skipped and a later match is ignored. */
  lemma SelectAmbiguousExample()
    ensures SelectCsvFile(["a.png", "x_a.csv", "y_a.csv"], "a") == Some("x_a.csv")
  {
    assert !EndsWith("a.png", ".csv");
    assert OccursAt("x_a.csv", "a", 2);
    ContainsIffOccurs("x_a.csv", "a");
    SelectIsFirstQualifying(["a.png", "x_a.csv", "y_a.csv"], "a", 1);
  }

  /** No entry qualifies: the IndexError case. */
  lemma SelectMissingExample()
    ensures SelectCsvFile(["a.png", "b.csv"], "a") == None
  {
    assert !EndsWith("a.png", ".csv");
    var b := "b.csv";
    forall i | 0 <= i < |b|
      ensures !OccursAt(b, "a", i)
    {
      assert b[i] in {'b', '.', 'c', 's', 'v'};
    }
    ContainsIffOccurs(b, "a");
    SelectFailsIffNoneQualifies(["a.png", "b.csv"], "a");
  }
}
