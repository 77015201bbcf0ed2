// The decisions behind find_thumbnail and cleanup_thumbnails, stated over
// the names in the output folder. The folder's contents are a set of file
// names; `os.path.exists(join(folder, n))` is membership of `n`.
module Thumbnails {
  import opened Text

  /** The extensions find_thumbnail tries, in priority order, and that
      cleanup_thumbnails deletes. */
  const Extensions: seq<string> := ["jpg", "jpeg", "png", "webp"]
  const WebpIndex: nat := 3

  /** The file name `f"{title}.{ext}"`. */
  function Candidate(title: string, ext: string): string {
    title + "." + ext
  }

  /** The name of the JPEG written beside a matched `.webp` thumbnail.
      The extension is swapped; see ConvertedNameAsWritten for what the
      code's `path.replace('.webp', '.jpg')` does instead. */
  function ConvertedName(title: string): (r: string)
    ensures r == Candidate(title, Extensions[0])
  {
    title + ".jpg"
  }

  /** `path.replace('.webp', '.jpg')` on the matched `.webp` name: every
      ".webp" in the name is rewritten, including any inside the title. */
  function ConvertedNameAsWritten(title: string): (r: string)
    ensures |r| <= |ConvertedName(title)|
    ensures |r| == |ConvertedName(title)| <==> !Contains(title, ".webp")
  {
    WebpDoesNotOverlapItself();
    ReplaceFromTrailingLength(title, ".webp", ".jpg", 0);
    MatchInPrefix(title, ".webp", ".webp");
    assert Candidate(title, "webp") == title + ".webp";
    ReplaceAll(Candidate(title, "webp"), ".webp", ".jpg")
  }

  /** Index of the first extension, from `from` on, whose candidate exists;
      `|Extensions|` when none does. */
  function FirstExisting(files: set<string>, title: string, from: nat): (k: nat)
    requires from <= |Extensions|
    ensures from <= k <= |Extensions|
    ensures k < |Extensions| ==> Candidate(title, Extensions[k]) in files
    ensures forall j | from <= j < k :: Candidate(title, Extensions[j]) !in files
    decreases |Extensions| - from
  {
    if from == |Extensions| then from
    else if Candidate(title, Extensions[from]) in files then from
    else FirstExisting(files, title, from + 1)
  }

  /** The path find_thumbnail returns: None exactly when no candidate
      exists; otherwise an image name that, except for a converted `.webp`,
      is already in the folder. */
  function Lookup(files: set<string>, title: string): (r: Option<string>)
    ensures r.None? <==> forall j | 0 <= j < |Extensions| :: Candidate(title, Extensions[j]) !in files
    ensures r.Some? ==> IsThumbnailName(r.value)
    ensures r.Some? && r.value !in files ==>
      r.value == ConvertedName(title) && Candidate(title, Extensions[WebpIndex]) in files
  {
    var k := FirstExisting(files, title, 0);
    if k == |Extensions| then None
    else if Extensions[k] == "webp" then
      assert EndsWith(ConvertedName(title), "." + Extensions[0]);
      Some(ConvertedName(title))
    else
      assert EndsWith(Candidate(title, Extensions[k]), "." + Extensions[k]);
      Some(Candidate(title, Extensions[k]))
  }

  /** The folder after find_thumbnail: the returned path exists, and
      nothing else changes. */
  function AfterLookup(files: set<string>, title: string): (r: set<string>)
    ensures files <= r <= files + {ConvertedName(title)}
    ensures r != files ==> FirstExisting(files, title, 0) == WebpIndex
  {
    var found := Lookup(files, title);
    if found.Some? then files + {found.value} else files
  }

  /** A lookup leaves every title's lookup as it was: the only file it can
      add is a converted JPEG, which is a candidate of its own title alone,
      and for that title it is exactly the path already returned. */
  lemma LookupAfterLookup(files: set<string>, u: string, t: string)
    ensures Lookup(AfterLookup(files, u), t) == Lookup(files, t)
  {
    var after := AfterLookup(files, u);
    if after != files {
      var c := ConvertedName(u);
      assert after == files + {c} && c !in files;
      forall j | 0 <= j < |Extensions|
        ensures Candidate(t, Extensions[j]) in after
          <==> Candidate(t, Extensions[j]) in files || (t == u && j == 0)
      {
        if Candidate(t, Extensions[j]) == c {
          ConvertedNameIsOwnCandidate(u, t, j);
        }
      }
      if t == u {
        LookupPriority(after, u, 0);
      } else {
        var k := FirstExisting(files, t, 0);
        if k < |Extensions| {
          LookupPriority(files, t, k);
          LookupPriority(after, t, k);
        }
      }
    }
  }

  /** The first extension in priority order whose file exists decides the
      result; a `.webp` match yields the converted JPEG's name. */
  lemma LookupPriority(files: set<string>, title: string, i: nat)
    requires i < |Extensions|
    requires Candidate(title, Extensions[i]) in files
    requires forall j | 0 <= j < i :: Candidate(title, Extensions[j]) !in files
    ensures Lookup(files, title) ==
      Some(if i == WebpIndex then ConvertedName(title) else Candidate(title, Extensions[i]))
  {
    var k := FirstExisting(files, title, 0);
    assert k <= i;
  }

  /** The JPEG written for a `.webp` match never replaces a file that
      exists: its name is the title's first candidate, already known to be
      absent. */
  lemma ConversionTargetIsFresh(files: set<string>, title: string)
    requires FirstExisting(files, title, 0) == WebpIndex
    ensures Lookup(files, title) == Some(ConvertedName(title))
    ensures ConvertedName(title) !in files
    ensures AfterLookup(files, title) == files + {ConvertedName(title)}
  {
    assert Candidate(title, Extensions[0]) !in files;
  }

  /** Looking up in a folder with more files never loses a match. */
  lemma LookupMonotone(files: set<string>, more: set<string>, title: string)
    requires files <= more
    requires Lookup(files, title).Some?
    ensures Lookup(more, title).Some?
  {
    var j :| 0 <= j < |Extensions| && Candidate(title, Extensions[j]) in files;
    assert Candidate(title, Extensions[j]) in more;
  }

  /** A converted JPEG's name is a candidate of no other title. */
  lemma ConvertedNameIsOwnCandidate(t: string, title: string, j: nat)
    requires j < |Extensions|
    requires ConvertedName(t) == Candidate(title, Extensions[j])
    ensures t == title && j == 0
  {
    var c := ConvertedName(t);
    var e := Extensions[j];
    assert |e| >= 3;
    assert c[|c| - 1] == e[|e| - 1] && c[|c| - 2] == e[|e| - 2] && c[|c| - 3] == e[|e| - 3];
    assert e == "jpg";
    assert t == c[..|t|] && title == c[..|title|];
  }

  /** As written, the converted name still ends in ".jpg", so the sweep
      removes it like any other thumbnail. */
  lemma AsWrittenConversionEndsWithJpg(title: string)
    ensures EndsWith(ConvertedNameAsWritten(title), ".jpg")
    ensures IsThumbnailName(ConvertedNameAsWritten(title))
  {
    WebpDoesNotOverlapItself();
    assert Candidate(title, "webp") == (title + ".") + "webp" == title + ".webp";
    ReplaceAllEndsWithReplacement(title, ".webp", ".jpg");
    assert "." + Extensions[0] == ".jpg";
  }

  /** As written and as intended agree on every title that does not itself
      contain ".webp". */
  lemma AsWrittenAgreesWithoutWebpInTitle(title: string)
    requires !Contains(title, ".webp")
    ensures ConvertedNameAsWritten(title) == ConvertedName(title)
  {
    WebpDoesNotOverlapItself();
    var s := title + ".webp";
    assert Candidate(title, "webp") == s;
    assert s == title + ".webp" + [];
    NoMatchBefore(title, ".webp", []);
    ReplaceAllAtFirstMatch(s, ".webp", ".jpg", |title|);
    assert s[..|title|] == title;
    assert ReplaceFrom(s, ".webp", ".jpg", |s|) == [];
  }

  /** The input that shows the discrepancy: for the title "a.webp" the
      code writes the converted image to "a.jpg.jpg", which is the first
      candidate of the title "a.jpg"; an existing cover of that other song
      is overwritten, and a later lookup for "a.jpg" finds this image. */
  lemma AsWrittenConversionOverwritesAnotherCover()
    ensures ConvertedNameAsWritten("a.webp") == Candidate("a.jpg", Extensions[0])
    ensures var files := {"a.webp.webp", "a.jpg.jpg"};
      && FirstExisting(files, "a.webp", 0) == WebpIndex
      && ConvertedNameAsWritten("a.webp") in files
  {
    AsWrittenConversionOfWebpTitle();
    var files := {"a.webp.webp", "a.jpg.jpg"};
    assert |Candidate("a.webp", Extensions[0])| == 10;
    assert Candidate("a.webp", Extensions[1])[7] == 'j';
    assert |Candidate("a.webp", Extensions[2])| == 10;
    assert Candidate("a.webp", Extensions[3]) in files by {
      assert Extensions[3] == "webp";
      assert Candidate("a.webp", "webp") == "a.webp" + "." + "webp" == "a.webp.webp";
    }
  }

  /** Both occurrences of ".webp" in "a.webp.webp" are rewritten. */
  lemma AsWrittenConversionOfWebpTitle()
    ensures ConvertedNameAsWritten("a.webp") == "a.jpg.jpg"
  {
    var w := ".webp";
    var s := "a" + w + w;
    assert ReplaceAll(s, w, ".jpg") == "a.jpg.jpg" by {
      assert FirstMatchAt(s, w, 1) by {
        WebpDoesNotOverlapItself();
        NoMatchBefore("a", w, w);
      }
      assert ReplaceFrom(s, w, ".jpg", 6) == ".jpg" by {
        MatchAtShift("a" + w, w, w, 0);
        ReplaceFromUpToMatch(s, w, ".jpg", 6, 6);
        assert ReplaceFrom(s, w, ".jpg", 11) == [];
      }
      ReplaceAllAtFirstMatch(s, w, ".jpg", 1);
      assert s[..1] == "a";
    }
    assert Candidate("a.webp", "webp") == s;
  }

  lemma WebpDoesNotOverlapItself()
    ensures NoSelfOverlap(".webp")
  {
    var pat := ".webp";
    forall k | 0 < k < |pat|
      ensures !OverlapsBy(pat, k)
    {
      assert pat[k..][0] != '.' && pat[..|pat| - k][0] == '.';
    }
  }

  /** The test cleanup_thumbnails applies: `file.endswith(f".{ext}")` for
      some extension of the list (case-sensitive). */
  predicate IsThumbnailName(name: string) {
    EndsWithAnyOf(name, Extensions)
  }

  /** `name` ends with "." followed by one of `exts`. */
  predicate EndsWithAnyOf(name: string, exts: seq<string>) {
    exists j | 0 <= j < |exts| :: EndsWith(name, "." + exts[j])
  }

  /** The folder without the files that end with one of `exts`. */
  function SweptBy(files: set<string>, exts: seq<string>): set<string> {
    set f | f in files && !EndsWithAnyOf(f, exts)
  }

  /** Sweeping one more extension removes the files ending in it. */
  lemma SweptByStep(files: set<string>, i: nat, before: set<string>, after: set<string>)
    requires i < |Extensions|
    requires before == SweptBy(files, Extensions[..i])
    requires after <= before
    requires forall f | f in before :: f in after <==> !EndsWith(f, "." + Extensions[i])
    ensures after == SweptBy(files, Extensions[..i + 1])
  {
    forall f
      ensures EndsWithAnyOf(f, Extensions[..i + 1])
        <==> EndsWithAnyOf(f, Extensions[..i]) || EndsWith(f, "." + Extensions[i])
    {
      assert Extensions[..i + 1][i] == Extensions[i];
      assert forall j | 0 <= j < i :: Extensions[..i + 1][j] == Extensions[..i][j];
    }
  }

  /** The folder after cleanup_thumbnails. */
  function Swept(files: set<string>): (r: set<string>)
    ensures r <= files
    ensures forall f | f in r :: !IsThumbnailName(f)
    ensures forall f | f in files && !IsThumbnailName(f) :: f in r
  {
    assert Extensions[..|Extensions|] == Extensions;
    SweptBy(files, Extensions)
  }

  /** Files that are thumbnails do not survive the sweep whatever was added
      beside them; sweeping is idempotent and leaves an image-free folder
      as it is. */
  lemma SweptIgnoresAddedImages(files: set<string>, added: set<string>)
    requires forall f | f in added :: IsThumbnailName(f)
    ensures Swept(files + added) == Swept(files)
    ensures Swept(Swept(files)) == Swept(files)
    ensures (forall f | f in files :: !IsThumbnailName(f)) ==> Swept(files) == files
  {
  }
}
