// The per-song steps of music.py over the output folder: match a thumbnail,
// embed it, sweep the leftover images. The folder is a set of file names;
// embed_thumbnail is an effect recorded in a log.
module Pipeline {
  import opened Text
  import opened Thumbnails
  import ErrorMessages
  import UrlNormalizer

  /** One call `embed_thumbnail(mp3_path, thumbnail_path)`. */
  datatype Embed = Embed(mp3: string, image: string)

  /** One song to match: the MP3's name and the title its thumbnail was
      saved under. */
  datatype Job = Job(mp3: string, title: string)

  /** The folder and the embeds recorded so far. */
  datatype Pass = Pass(files: set<string>, embeds: seq<Embed>)

  /** One song: look its thumbnail up and embed it when one was found. */
  function RunJob(p: Pass, job: Job): (r: Pass)
    ensures p.files <= r.files <= p.files + {ConvertedName(job.title)}
    ensures |p.embeds| <= |r.embeds| <= |p.embeds| + 1
    ensures r.embeds[..|p.embeds|] == p.embeds
    ensures |r.embeds| > |p.embeds| <==> Lookup(p.files, job.title).Some?
    ensures forall e | e in r.embeds[|p.embeds|..] ::
      e.mp3 == job.mp3 && Some(e.image) == Lookup(p.files, job.title)
  {
    var found := Lookup(p.files, job.title);
    Pass(AfterLookup(p.files, job.title),
         p.embeds + if found.Some? then [Embed(job.mp3, found.value)] else [])
  }

  /** The songs in order. */
  function RunJobs(jobs: seq<Job>, files: set<string>): (r: Pass)
    ensures files <= r.files
    ensures |r.embeds| <= |jobs|
    decreases |jobs|
  {
    if jobs == [] then Pass(files, [])
    else RunJob(RunJobs(jobs[..|jobs| - 1], files), jobs[|jobs| - 1])
  }

  lemma RunJobsSnoc(jobs: seq<Job>, job: Job, files: set<string>)
    ensures RunJobs(jobs + [job], files) == RunJob(RunJobs(jobs, files), job)
  {
    assert (jobs + [job])[..|jobs|] == jobs;
  }

  /** Embeds recorded before a song do not affect how it is handled. */
  lemma RunJobAfterEarlierEmbeds(p: Pass, earlier: seq<Embed>, job: Job)
    ensures RunJob(Pass(p.files, earlier + p.embeds), job)
      == Pass(RunJob(p, job).files, earlier + RunJob(p, job).embeds)
  {
    var found := Lookup(p.files, job.title);
    var added := if found.Some? then [Embed(job.mp3, found.value)] else [];
    assert (earlier + p.embeds) + added == earlier + (p.embeds + added);
  }

  /** What a pass can do: the folder only gains converted JPEGs of the
      songs' own titles, there are no more embeds than songs, and every
      embed is of one of the songs' MP3s with an image name. */
  lemma {:induction false} RunJobsEffects(jobs: seq<Job>, files: set<string>)
    ensures files <= RunJobs(jobs, files).files
    ensures forall f | f in RunJobs(jobs, files).files && f !in files ::
      exists job | job in jobs :: f == ConvertedName(job.title)
    ensures |RunJobs(jobs, files).embeds| <= |jobs|
    ensures forall e | e in RunJobs(jobs, files).embeds ::
      IsThumbnailName(e.image) && exists job | job in jobs :: job.mp3 == e.mp3
    decreases |jobs|
  {
    if jobs != [] {
      var init := jobs[..|jobs| - 1];
      var last := jobs[|jobs| - 1];
      RunJobsEffects(init, files);
      var prev := RunJobs(init, files);
      var r := RunJobs(jobs, files);
      assert r == RunJob(prev, last);
      assert forall job | job in init :: job in jobs;
      var found := Lookup(prev.files, last.title);
      if found.Some? && found.value !in prev.files {
        assert found.value == ConvertedName(last.title);
      }
      assert r.files == prev.files || r.files == prev.files + {ConvertedName(last.title)};
    }
  }

  /** The sweep that follows a pass leaves the same folder as a sweep of
      the folder the pass started from. */
  lemma {:induction false} SweptAfterRun(jobs: seq<Job>, files: set<string>)
    ensures Swept(RunJobs(jobs, files).files) == Swept(files)
  {
    var r := RunJobs(jobs, files);
    RunJobsEffects(jobs, files);
    var added := r.files - files;
    forall f | f in added
      ensures IsThumbnailName(f)
    {
      var job :| job in jobs && f == ConvertedName(job.title);
      assert EndsWith(f, "." + Extensions[0]);
    }
    assert r.files == files + added;
    SweptIgnoresAddedImages(files, added);
  }

  /** A pass leaves every title's lookup as it was in the folder the pass
      started from. */
  lemma {:induction false} LookupAfterRun(jobs: seq<Job>, files: set<string>, t: string)
    ensures Lookup(RunJobs(jobs, files).files, t) == Lookup(files, t)
    decreases |jobs|
  {
    if jobs != [] {
      var init := jobs[..|jobs| - 1];
      var prev := RunJobs(init, files);
      LookupAfterRun(init, files, t);
      LookupAfterLookup(prev.files, jobs[|jobs| - 1].title, t);
    }
  }

  /** The embeds a pass should perform, read off the folder it starts
      from: in song order, one per song whose thumbnail is found there,
      carrying that thumbnail. */
  function EmbedsOf(jobs: seq<Job>, files: set<string>): (r: seq<Embed>)
    ensures |r| <= |jobs|
    decreases |jobs|
  {
    if jobs == [] then []
    else
      var last := jobs[|jobs| - 1];
      var found := Lookup(files, last.title);
      EmbedsOf(jobs[..|jobs| - 1], files) + if found.Some? then [Embed(last.mp3, found.value)] else []
  }

  /** A pass performs exactly the embeds read off its starting folder: the
      files it adds never change which image a song gets. */
  lemma {:induction false} RunJobsEmbeds(jobs: seq<Job>, files: set<string>)
    ensures RunJobs(jobs, files).embeds == EmbedsOf(jobs, files)
    decreases |jobs|
  {
    if jobs != [] {
      var init := jobs[..|jobs| - 1];
      RunJobsEmbeds(init, files);
      LookupAfterRun(init, files, jobs[|jobs| - 1].title);
    }
  }

  /** The embeds of EmbedsOf are those of the songs with a thumbnail, each
      with its own song's MP3 and thumbnail. */
  lemma {:induction false} EmbedsOfMembers(jobs: seq<Job>, files: set<string>, e: Embed)
    ensures e in EmbedsOf(jobs, files) <==>
      exists i | 0 <= i < |jobs| :: Some(e.image) == Lookup(files, jobs[i].title) && e.mp3 == jobs[i].mp3
    decreases |jobs|
  {
    if jobs != [] {
      var init := jobs[..|jobs| - 1];
      EmbedsOfMembers(init, files, e);
      assert forall i | 0 <= i < |init| :: init[i] == jobs[i];
    }
  }

  /** A song whose thumbnail is in the folder when the pass starts is
      embedded into its MP3 with that thumbnail. */
  lemma MatchedJobIsEmbedded(jobs: seq<Job>, files: set<string>, i: nat)
    requires i < |jobs|
    requires Lookup(files, jobs[i].title).Some?
    ensures Embed(jobs[i].mp3, Lookup(files, jobs[i].title).value) in RunJobs(jobs, files).embeds
  {
    RunJobsEmbeds(jobs, files);
    EmbedsOfMembers(jobs, files, Embed(jobs[i].mp3, Lookup(files, jobs[i].title).value));
  }

  /** Songs sharing an MP3 share a title, so they share a thumbnail. */
  predicate Mp3DeterminesTitle(jobs: seq<Job>) {
    forall a, b | 0 <= a < |jobs| && 0 <= b < |jobs| && jobs[a].mp3 == jobs[b].mp3 ::
      jobs[a].title == jobs[b].title
  }

  /** A song's MP3 receives an embed exactly when the song's thumbnail is
      found in the folder the pass starts from, and every embed into it
      carries that thumbnail. */
  lemma EmbeddedIffThumbnailPresent(jobs: seq<Job>, files: set<string>, i: nat)
    requires i < |jobs|
    requires Mp3DeterminesTitle(jobs)
    ensures (exists e | e in RunJobs(jobs, files).embeds :: e.mp3 == jobs[i].mp3)
      <==> Lookup(files, jobs[i].title).Some?
    ensures forall e | e in RunJobs(jobs, files).embeds && e.mp3 == jobs[i].mp3 ::
      Some(e.image) == Lookup(files, jobs[i].title)
  {
    var embeds := RunJobs(jobs, files).embeds;
    RunJobsEmbeds(jobs, files);
    forall e | e in embeds && e.mp3 == jobs[i].mp3
      ensures Some(e.image) == Lookup(files, jobs[i].title)
    {
      EmbedsOfMembers(jobs, files, e);
      var a :| 0 <= a < |jobs| && Some(e.image) == Lookup(files, jobs[a].title) && e.mp3 == jobs[a].mp3;
      assert jobs[a].title == jobs[i].title;
    }
    var found := Lookup(files, jobs[i].title);
    if found.Some? {
      var e := Embed(jobs[i].mp3, found.value);
      EmbedsOfMembers(jobs, files, e);
      assert e in embeds;
    }
  }

  /** The songs of process_existing_files, in listing order: each name
      ending in ".mp3", with `os.path.splitext` giving its title. */
  function ListingJobs(listing: seq<string>): (jobs: seq<Job>)
    ensures |jobs| <= |listing|
    ensures forall job | job in jobs :: EndsWith(job.mp3, ".mp3")
    decreases |listing|
  {
    if listing == [] then []
    else
      var name := listing[|listing| - 1];
      ListingJobs(listing[..|listing| - 1])
        + if EndsWith(name, ".mp3") then [Job(name, SplitExt(name).0)] else []
  }

  /** The fallback considers exactly the listed MP3s: each song is a listed
      name ending in ".mp3" titled by its stem, and each such name is a
      song. */
  lemma {:induction false} ListingJobsAreTheMp3s(listing: seq<string>)
    ensures forall job | job in ListingJobs(listing) ::
      job.mp3 in listing && EndsWith(job.mp3, ".mp3") && job.title == SplitExt(job.mp3).0
    ensures forall n | n in listing && EndsWith(n, ".mp3") :: Job(n, SplitExt(n).0) in ListingJobs(listing)
    decreases |listing|
  {
    if listing != [] {
      var init := listing[..|listing| - 1];
      var name := listing[|listing| - 1];
      ListingJobsAreTheMp3s(init);
      assert forall n | n in listing :: n in init || n == name;
      assert forall n | n in init :: n in listing;
    }
  }

  /** A playlist entry as the download returns it: `title` and `url` may be
      missing. */
  datatype Entry = Entry(title: Option<string>, url: Option<string>)

  /** What the playlist loop does with one entry. */
  datatype EntryStep = Skip | Process(title: string) | Crash

  /** The entry test as written: `not entry` catches a missing entry, but
      the skip message then evaluates `entry.get('title', ...)` on it,
      which raises. */
  function EntryStepAsWritten(entry: Option<Entry>): (s: EntryStep)
    ensures s == Crash <==> entry.None?
    ensures s == Skip <==> entry.Some? && entry.value.url.None?
  {
    match entry
    case None => Crash
    case Some(e) => if e.url.None? then Skip else Process(e.title.GetOr("audio"))
  }

  /** The input that shows it: a missing playlist entry stops the run. */
  lemma MissingEntryCrashesAsWritten()
    ensures EntryStepAsWritten(None) == Crash
    ensures forall e :: EntryStepAsWritten(Some(e)) != Crash
  {
  }

  /** The entry test as intended: a missing entry, or one without a URL,
      is skipped; any other is processed under its title, "audio" when it
      has none. */
  function EntryStepFor(entry: Option<Entry>): (s: EntryStep)
    ensures s != Crash
    ensures s == Skip <==> entry.None? || entry.value.url.None?
    ensures s.Process? ==> s.title == entry.value.title.GetOr("audio")
    ensures entry.Some? ==> s == EntryStepAsWritten(entry)
  {
    match entry
    case None => Skip
    case Some(e) => if e.url.None? then Skip else Process(e.title.GetOr("audio"))
  }

  /** The songs of a playlist download, in entry order. */
  function PlaylistJobs(entries: seq<Option<Entry>>): (jobs: seq<Job>)
    ensures |jobs| <= |entries|
    ensures forall job | job in jobs :: job.mp3 == job.title + ".mp3"
    decreases |entries|
  {
    if entries == [] then []
    else
      var step := EntryStepFor(entries[|entries| - 1]);
      PlaylistJobs(entries[..|entries| - 1])
        + if step.Process? then [Job(step.title + ".mp3", step.title)] else []
  }

  lemma ListingJobsStep(listing: seq<string>, i: nat)
    requires i < |listing|
    ensures ListingJobs(listing[..i + 1]) == ListingJobs(listing[..i])
      + if EndsWith(listing[i], ".mp3") then [Job(listing[i], SplitExt(listing[i]).0)] else []
  {
    assert listing[..i + 1][..i] == listing[..i];
  }

  lemma PlaylistJobsStep(entries: seq<Option<Entry>>, i: nat)
    requires i < |entries|
    ensures var step := EntryStepFor(entries[i]);
      PlaylistJobs(entries[..i + 1]) == PlaylistJobs(entries[..i])
        + if step.Process? then [Job(step.title + ".mp3", step.title)] else []
  {
    assert entries[..i + 1][..i] == entries[..i];
  }

  /** The playlist's songs are exactly its processed entries: each song is
      named after an entry processed under that title, and every processed
      entry yields its song. */
  lemma {:induction false} PlaylistJobsAreTheEntries(entries: seq<Option<Entry>>)
    ensures forall job | job in PlaylistJobs(entries) ::
      job.mp3 == job.title + ".mp3"
      && exists i | 0 <= i < |entries| :: EntryStepFor(entries[i]) == Process(job.title)
    ensures forall i | 0 <= i < |entries| && EntryStepFor(entries[i]).Process? ::
      Job(EntryStepFor(entries[i]).title + ".mp3", EntryStepFor(entries[i]).title) in PlaylistJobs(entries)
    decreases |entries|
  {
    if entries != [] {
      var init := entries[..|entries| - 1];
      PlaylistJobsAreTheEntries(init);
      assert forall i | 0 <= i < |init| :: init[i] == entries[i];
    }
  }

  /** Songs come in entry order: the songs of a playlist split in two are
      the songs of the first part followed by those of the second. */
  lemma {:induction false} PlaylistJobsAppend(first: seq<Option<Entry>>, second: seq<Option<Entry>>)
    ensures PlaylistJobs(first + second) == PlaylistJobs(first) + PlaylistJobs(second)
    decreases |second|
  {
    if second == [] {
      assert first + second == first;
    } else {
      var init := second[..|second| - 1];
      PlaylistJobsAppend(first, init);
      assert (first + second)[..|first + second| - 1] == first + init;
      var step := EntryStepFor(second[|second| - 1]);
      var tail := if step.Process? then [Job(step.title + ".mp3", step.title)] else [];
      assert PlaylistJobs(first) + (PlaylistJobs(init) + tail)
        == (PlaylistJobs(first) + PlaylistJobs(init)) + tail;
    }
  }

  /** The fallback embeds into a listed MP3 exactly when its stem's
      thumbnail is in the folder, and always that thumbnail. */
  lemma ListedMp3Embedded(listing: seq<string>, files: set<string>, name: string)
    requires name in listing && EndsWith(name, ".mp3")
    ensures var embeds := RunJobs(ListingJobs(listing), files).embeds;
      && ((exists e | e in embeds :: e.mp3 == name) <==> Lookup(files, SplitExt(name).0).Some?)
      && forall e | e in embeds && e.mp3 == name :: Some(e.image) == Lookup(files, SplitExt(name).0)
  {
    var jobs := ListingJobs(listing);
    ListingJobsAreTheMp3s(listing);
    assert Job(name, SplitExt(name).0) in jobs;
    var i :| 0 <= i < |jobs| && jobs[i] == Job(name, SplitExt(name).0);
    EmbeddedIffThumbnailPresent(jobs, files, i);
  }

  /** The playlist branch embeds into a processed entry's MP3 exactly when
      that title's thumbnail is in the folder, and always that thumbnail,
      even when several entries share the title. */
  lemma PlaylistSongEmbedded(entries: seq<Option<Entry>>, files: set<string>, i: nat)
    requires i < |entries| && EntryStepFor(entries[i]).Process?
    ensures var title := EntryStepFor(entries[i]).title;
      var embeds := RunJobs(PlaylistJobs(entries), files).embeds;
      && ((exists e | e in embeds :: e.mp3 == title + ".mp3") <==> Lookup(files, title).Some?)
      && forall e | e in embeds && e.mp3 == title + ".mp3" :: Some(e.image) == Lookup(files, title)
  {
    var jobs := PlaylistJobs(entries);
    var title := EntryStepFor(entries[i]).title;
    PlaylistJobsAreTheEntries(entries);
    assert Job(title + ".mp3", title) in jobs;
    var k :| 0 <= k < |jobs| && jobs[k] == Job(title + ".mp3", title);
    forall a, b | 0 <= a < |jobs| && 0 <= b < |jobs| && jobs[a].mp3 == jobs[b].mp3
      ensures jobs[a].title == jobs[b].title
    {
      assert jobs[a].mp3 == jobs[a].title + ".mp3" && jobs[b].mp3 == jobs[b].title + ".mp3";
      assert jobs[a].title == jobs[a].mp3[..|jobs[a].mp3| - 4];
      assert jobs[b].title == jobs[b].mp3[..|jobs[b].mp3| - 4];
    }
    EmbeddedIffThumbnailPresent(jobs, files, k);
  }

  /** What `ydl.extract_info` produced: a download error's text, a playlist's
      entries, or a single video's title. */
  datatype FetchResult =
    | FetchError(errorText: string)
    | PlaylistInfo(entries: seq<Option<Entry>>)
    | VideoInfo(title: Option<string>)

  /** `listing` is what `os.listdir` returns for a folder holding `files`:
      each name once, in some order. */
  predicate ListingOf(listing: seq<string>, files: set<string>) {
    multiset(listing) == multiset(files)
  }

  /** The output folder: the file names it holds and the embeds performed
      on its MP3s. */
  class OutputFolder {
    var files: set<string>
    var embeds: seq<Embed>

    constructor (initial: set<string>)
      ensures files == initial && embeds == []
    {
      files := initial;
      embeds := [];
    }

    /** embed_thumbnail, recorded. */
    method EmbedThumbnail(mp3Path: string, thumbnailPath: string)
      modifies this`embeds
      ensures embeds == old(embeds) + [Embed(mp3Path, thumbnailPath)]
    {
      embeds := embeds + [Embed(mp3Path, thumbnailPath)];
    }

    /** find_thumbnail: tries the extensions in order and stops at the first
        file that exists; a `.webp` match writes a JPEG beside it and
        returns that. Afterwards the returned path exists and nothing else
        changed. */
    method FindThumbnail(title: string) returns (path: Option<string>)
      modifies this`files
      ensures path == Lookup(old(files), title)
      ensures files == old(files) + if path.Some? then {path.value} else {}
    {
      for i := 0 to |Extensions|
        invariant files == old(files)
        invariant forall j | 0 <= j < i :: Candidate(title, Extensions[j]) !in files
      {
        var candidate := Candidate(title, Extensions[i]);
        if candidate in files {
          LookupPriority(files, title, i);
          if Extensions[i] == "webp" {
            var converted := ConvertedName(title);
            files := files + {converted};
            return Some(converted);
          }
          return Some(candidate);
        }
      }
      return None;
    }

    /** The lines every loop of music.py repeats for one song:
        `thumbnail_path = find_thumbnail(...)`, then `embed_thumbnail` when
        a path was found. */
    method MatchAndEmbed(mp3Path: string, title: string)
      modifies this
      ensures Pass(files, embeds) == RunJob(Pass(old(files), old(embeds)), Job(mp3Path, title))
    {
      var path := FindThumbnail(title);
      if path.Some? {
        EmbedThumbnail(mp3Path, path.value);
      }
    }

    /** cleanup_thumbnails: for each extension, deletes every listed file
        ending in it. Afterwards no thumbnail name is left, every other file
        is, and the flag tells whether any file was deleted. */
    method CleanupThumbnails() returns (deletedAnything: bool)
      modifies this`files
      ensures files == Swept(old(files))
      ensures deletedAnything <==> exists f | f in old(files) :: IsThumbnailName(f)
    {
      deletedAnything := false;
      for i := 0 to |Extensions|
        invariant files == SweptBy(old(files), Extensions[..i])
        invariant deletedAnything <==> files != old(files)
      {
        var suffix := "." + Extensions[i];
        var listing := files;
        ghost var before := files;
        while listing != {}
          invariant listing <= files <= before
          invariant forall f | f in before :: f in files <==> f in listing || !EndsWith(f, suffix)
          invariant deletedAnything <==> files != old(files)
          decreases listing
        {
          var name :| name in listing;
          listing := listing - {name};
          if EndsWith(name, suffix) {
            files := files - {name};
            deletedAnything := true;
          }
        }
        SweptByStep(old(files), i, before, files);
      }
      assert Extensions[..|Extensions|] == Extensions;
    }

    /** process_existing_files: every listed MP3 gets its matched thumbnail
        embedded, then the sweep runs; the folder ends as the sweep of the
        folder it started as. */
    method ProcessExistingFiles(listing: seq<string>)
      requires ListingOf(listing, files)
      modifies this
      ensures embeds == old(embeds) + EmbedsOf(ListingJobs(listing), old(files))
      ensures files == Swept(old(files))
    {
      for i := 0 to |listing|
        invariant files == RunJobs(ListingJobs(listing[..i]), old(files)).files
        invariant embeds == old(embeds) + RunJobs(ListingJobs(listing[..i]), old(files)).embeds
      {
        var name := listing[i];
        ListingJobsStep(listing, i);
        if EndsWith(name, ".mp3") {
          var title := SplitExt(name).0;
          var prev := RunJobs(ListingJobs(listing[..i]), old(files));
          RunJobsSnoc(ListingJobs(listing[..i]), Job(name, title), old(files));
          RunJobAfterEarlierEmbeds(prev, old(embeds), Job(name, title));
          MatchAndEmbed(name, title);
        } else {
          assert ListingJobs(listing[..i + 1]) == ListingJobs(listing[..i]);
        }
      }
      assert listing[..|listing|] == listing;
      SweptAfterRun(ListingJobs(listing), old(files));
      RunJobsEmbeds(ListingJobs(listing), old(files));
      var _ := CleanupThumbnails();
    }

    /** The playlist branch of download_mp3: each available entry's
        thumbnail is embedded into `{title}.mp3`, then the sweep always
        runs. */
    method ProcessPlaylist(entries: seq<Option<Entry>>)
      modifies this
      ensures embeds == old(embeds) + EmbedsOf(PlaylistJobs(entries), old(files))
      ensures files == Swept(old(files))
    {
      for i := 0 to |entries|
        invariant files == RunJobs(PlaylistJobs(entries[..i]), old(files)).files
        invariant embeds == old(embeds) + RunJobs(PlaylistJobs(entries[..i]), old(files)).embeds
      {
        PlaylistJobsStep(entries, i);
        var step := EntryStepFor(entries[i]);
        if step.Process? {
          var title := step.title;
          var prev := RunJobs(PlaylistJobs(entries[..i]), old(files));
          RunJobsSnoc(PlaylistJobs(entries[..i]), Job(title + ".mp3", title), old(files));
          RunJobAfterEarlierEmbeds(prev, old(embeds), Job(title + ".mp3", title));
          MatchAndEmbed(title + ".mp3", title);
        } else {
          assert PlaylistJobs(entries[..i + 1]) == PlaylistJobs(entries[..i]);
        }
      }
      assert entries[..|entries|] == entries;
      SweptAfterRun(PlaylistJobs(entries), old(files));
      RunJobsEmbeds(PlaylistJobs(entries), old(files));
      var _ := CleanupThumbnails();
    }

    /** The single-video branch of download_mp3: the sweep runs only when
        the video's thumbnail was found and embedded. */
    method ProcessSingleVideo(title: string)
      modifies this
      ensures var found := Lookup(old(files), title);
        && embeds == old(embeds) + (if found.Some? then [Embed(title + ".mp3", found.value)] else [])
        && files == if found.Some? then Swept(old(files)) else old(files)
    {
      var path := FindThumbnail(title);
      if path.Some? {
        EmbedThumbnail(title + ".mp3", path.value);
        SweptIgnoresAddedImages(old(files), {path.value});
        var _ := CleanupThumbnails();
      }
    }

    /** download_mp3 after the download itself: a failed download reports
        its cleaned message and falls back to the folder's MP3s; otherwise
        the playlist or the single-video branch runs. `fetchUrl` is the URL
        handed to the downloader. */
    method DownloadMp3(url: string, fetched: FetchResult, listing: seq<string>)
        returns (fetchUrl: string, error: Option<string>)
      requires fetched.FetchError? ==> ListingOf(listing, files)
      modifies this
      ensures fetchUrl == UrlNormalizer.ConvertYoutubeMusicUrl(url)
      ensures error == if fetched.FetchError?
        then Some(ErrorMessages.CleanErrorMessage(fetched.errorText)) else None
      ensures fetched.FetchError? ==>
        embeds == old(embeds) + EmbedsOf(ListingJobs(listing), old(files))
      ensures fetched.PlaylistInfo? ==>
        embeds == old(embeds) + EmbedsOf(PlaylistJobs(fetched.entries), old(files))
      ensures !fetched.VideoInfo? ==> files == Swept(old(files))
      ensures fetched.VideoInfo? ==>
        var title := fetched.title.GetOr("audio");
        var found := Lookup(old(files), title);
        && embeds == old(embeds) + (if found.Some? then [Embed(title + ".mp3", found.value)] else [])
        && files == if found.Some? then Swept(old(files)) else old(files)
    {
      fetchUrl := UrlNormalizer.ConvertYoutubeMusicUrl(url);
      error := None;
      match fetched
      case FetchError(text) =>
        error := Some(ErrorMessages.CleanErrorMessage(text));
        ProcessExistingFiles(listing);
      case PlaylistInfo(entries) =>
        ProcessPlaylist(entries);
      case VideoInfo(t) =>
        ProcessSingleVideo(t.GetOr("audio"));
    }
  }
}
