/**
 * Properties of the upload handler's outcome: what happens on each rejection, which
 * files a request leaves behind, and how stored names relate to the media listing.
 */
module UploadProperties {
  import opened Common
  import opened Naming
  import opened Listing
  import opened Upload

  /** The outcome of a request whose part `k` is the first to fail. */
  lemma OutcomeAtFailure(req: Request, dir: Directory, env: Env, k: nat)
    requires req.httpMethod == "POST" && req.formParsed
    requires k < |FileParts(req)|
    requires forall j :: 0 <= j < k ==> PartFailure(FileParts(req)[j], env.sniff).None?
    requires PartFailure(FileParts(req)[k], env.sniff).Some?
    ensures UploadOutcome(req, dir, env) == Response(
      StatusOf(PartFailure(FileParts(req)[k], env.sniff).value),
      Persist(dir, PartNames(env, FileParts(req)), FileParts(req),
        if CreateFailure(FileParts(req)[k], env.sniff).None? then k + 1 else k))
  {
  }

  /** The outcome of a request all of whose parts pass. */
  lemma OutcomeAtSuccess(req: Request, dir: Directory, env: Env)
    requires req.httpMethod == "POST" && req.formParsed
    requires forall j :: 0 <= j < |FileParts(req)| ==> PartFailure(FileParts(req)[j], env.sniff).None?
    ensures UploadOutcome(req, dir, env) ==
      Response(StatusSeeOther, Persist(dir, PartNames(env, FileParts(req)), FileParts(req), |FileParts(req)|))
  {
  }

  /** Each stored path is `<uploadDir>/<timestamp><original extension>`, whatever the sniffed type. */
  lemma PartNameFormat(env: Env, parts: seq<FilePart>, i: nat)
    requires i < |parts|
    ensures |PartNames(env, parts)| == |parts|
    ensures PartNames(env, parts)[i] == env.uploadDir + "/" + Decimal(env.now(i)) + Ext(parts[i].filename)
  {
  }

  /** The first `n` paths of `names`, as a set. */
  function NameSet(names: seq<string>, n: nat): set<string>
    requires n <= |names|
  {
    set j | 0 <= j < n :: names[j]
  }

  /** Writing parts `0..n` adds exactly their paths to the directory, and nothing else. */
  lemma {:induction false} PersistKeys(dir: Directory, names: seq<string>, parts: seq<FilePart>, n: nat)
    requires n <= |parts| <= |names|
    ensures Persist(dir, names, parts, n).Keys == dir.Keys + NameSet(names, n)
    decreases n
  {
    if n > 0 {
      PersistKeys(dir, names, parts, n - 1);
      assert NameSet(names, n) == NameSet(names, n - 1) + {names[n - 1]};
    }
  }

  /** A path none of parts `0..n` is stored under keeps whatever the directory had there. */
  lemma {:induction false} PersistElsewhere(dir: Directory, names: seq<string>, parts: seq<FilePart>, n: nat, path: string)
    requires n <= |parts| <= |names|
    requires forall j :: 0 <= j < n ==> names[j] != path
    ensures path in Persist(dir, names, parts, n) <==> path in dir
    ensures path in dir ==> Persist(dir, names, parts, n)[path] == dir[path]
    decreases n
  {
    if n > 0 {
      PersistElsewhere(dir, names, parts, n - 1, path);
    }
  }

  /** Part `j`'s file holds what was written for it unless a later part reused its path. */
  lemma {:induction false} LastWriteWins(dir: Directory, names: seq<string>, parts: seq<FilePart>, n: nat, j: nat)
    requires j < n <= |parts| <= |names|
    requires forall l :: j < l < n ==> names[l] != names[j]
    ensures names[j] in Persist(dir, names, parts, n)
    ensures Persist(dir, names, parts, n)[names[j]] == WrittenBytes(parts[j])
    decreases n
  {
    if n > j + 1 {
      LastWriteWins(dir, names, parts, n - 1, j);
    }
  }

  /** n pairwise different paths make a set of n paths. */
  lemma {:induction false} NameSetSize(names: seq<string>, n: nat)
    requires n <= |names|
    requires forall i, j :: 0 <= i < j < n ==> names[i] != names[j]
    ensures |NameSet(names, n)| == n
    decreases n
  {
    if n > 0 {
      NameSetSize(names, n - 1);
      assert NameSet(names, n) == NameSet(names, n - 1) + {names[n - 1]};
    }
  }

  /**
   * Under pairwise different paths, writing parts `0..n` adds n new paths, each holding
   * its own part's bytes.
   */
  lemma PersistDistinct(dir: Directory, names: seq<string>, parts: seq<FilePart>, n: nat)
    requires n <= |parts| <= |names|
    requires forall i, j :: 0 <= i < j < n ==> names[i] != names[j]
    ensures Persist(dir, names, parts, n).Keys == dir.Keys + NameSet(names, n)
    ensures |NameSet(names, n)| == n
    ensures forall j :: 0 <= j < n ==> Persist(dir, names, parts, n)[names[j]] == WrittenBytes(parts[j])
  {
    PersistKeys(dir, names, parts, n);
    NameSetSize(names, n);
    forall j | 0 <= j < n
      ensures Persist(dir, names, parts, n)[names[j]] == WrittenBytes(parts[j])
    {
      LastWriteWins(dir, names, parts, n, j);
    }
  }

  /** The declared-size check is strict: a part of exactly 512 MiB passes it. */
  lemma SizeCheckIsStrict(p: FilePart, sniff: seq<byte> -> string)
    ensures CreateFailure(p, sniff) == Some(TooBig) <==> p.size as int > MaxUploadSize
  {
  }

  /**
   * A part refused before its file is created (size, open, read, type, seek, mkdir or
   * create) ends the request with that check's status; the directory gains the files of
   * the earlier parts and none for this part or any later one.
   */
  lemma RefusedBeforeCreate(req: Request, dir: Directory, env: Env, k: nat)
    requires req.httpMethod == "POST" && req.formParsed
    requires k < |FileParts(req)|
    requires forall j :: 0 <= j < k ==> PartFailure(FileParts(req)[j], env.sniff).None?
    requires CreateFailure(FileParts(req)[k], env.sniff).Some?
    ensures UploadOutcome(req, dir, env).status == StatusOf(CreateFailure(FileParts(req)[k], env.sniff).value)
    ensures UploadOutcome(req, dir, env).files.Keys == dir.Keys + NameSet(PartNames(env, FileParts(req)), k)
  {
    OutcomeAtFailure(req, dir, env, k);
    PersistKeys(dir, PartNames(env, FileParts(req)), FileParts(req), k);
  }

  /** A part declared larger than 512 MiB is refused with 400 and gets no file. */
  lemma OversizedPartRefused(req: Request, dir: Directory, env: Env, k: nat)
    requires req.httpMethod == "POST" && req.formParsed
    requires k < |FileParts(req)|
    requires forall j :: 0 <= j < k ==> PartFailure(FileParts(req)[j], env.sniff).None?
    requires FileParts(req)[k].size as int > MaxUploadSize
    ensures UploadOutcome(req, dir, env).status == StatusBadRequest
    ensures UploadOutcome(req, dir, env).files.Keys == dir.Keys + NameSet(PartNames(env, FileParts(req)), k)
  {
    RefusedBeforeCreate(req, dir, env, k);
  }

  /**
   * A part whose sniffed type is not MP4, JPEG or PNG is refused with 400; neither it nor
   * any later part gets a file.
   */
  lemma DisallowedTypeRefused(req: Request, dir: Directory, env: Env, k: nat)
    requires req.httpMethod == "POST" && req.formParsed
    requires k < |FileParts(req)|
    requires forall j :: 0 <= j < k ==> PartFailure(FileParts(req)[j], env.sniff).None?
    requires FileParts(req)[k].size as int <= MaxUploadSize
    requires FileParts(req)[k].io.openOk && ReadSucceeds(FileParts(req)[k])
    requires !AllowedType(env.sniff(SniffBuffer(FileParts(req)[k].content)))
    ensures UploadOutcome(req, dir, env).status == StatusBadRequest
    ensures UploadOutcome(req, dir, env).files.Keys == dir.Keys + NameSet(PartNames(env, FileParts(req)), k)
  {
    RefusedBeforeCreate(req, dir, env, k);
  }

  /**
   * The first failing part decides the status; the directory gains paths only for the
   * parts up to it (itself included only when its copy was what failed); and every
   * earlier part's file holds that part's bytes unless a later part that got a file
   * reused its path.
   */
  lemma FirstFailureEndsRequest(req: Request, dir: Directory, env: Env, j: nat)
    requires req.httpMethod == "POST" && req.formParsed
    requires FirstFailure(FileParts(req), env.sniff) < |FileParts(req)|
    requires j < FirstFailure(FileParts(req), env.sniff)
    requires forall l :: j < l < CreatedCount(FileParts(req), env.sniff) ==>
      PartNames(env, FileParts(req))[l] != PartNames(env, FileParts(req))[j]
    ensures UploadOutcome(req, dir, env).status ==
      StatusOf(PartFailure(FileParts(req)[FirstFailure(FileParts(req), env.sniff)], env.sniff).value)
    ensures UploadOutcome(req, dir, env).files.Keys ==
      dir.Keys + NameSet(PartNames(env, FileParts(req)), CreatedCount(FileParts(req), env.sniff))
    ensures CreatedCount(FileParts(req), env.sniff) <= FirstFailure(FileParts(req), env.sniff) + 1
    ensures PartNames(env, FileParts(req))[j] in UploadOutcome(req, dir, env).files
    ensures UploadOutcome(req, dir, env).files[PartNames(env, FileParts(req))[j]] == FileParts(req)[j].content
  {
    var parts := FileParts(req);
    var names := PartNames(env, parts);
    var n := CreatedCount(parts, env.sniff);
    PersistKeys(dir, names, parts, n);
    LastWriteWins(dir, names, parts, n, j);
  }

  /** A request ends in the 303 redirect exactly when it is a parsed POST and every part passes. */
  lemma RedirectIff(req: Request, dir: Directory, env: Env)
    ensures UploadOutcome(req, dir, env).status == StatusSeeOther <==>
      req.httpMethod == "POST" && req.formParsed &&
      forall j :: 0 <= j < |FileParts(req)| ==> PartFailure(FileParts(req)[j], env.sniff).None?
  {
  }

  /** With different timestamps, two parts get different paths. */
  lemma DistinctTimestampsGiveDistinctNames(env: Env, parts: seq<FilePart>, i: nat, j: nat)
    requires i < |parts| && j < |parts|
    requires env.now(i) != env.now(j)
    ensures PartNames(env, parts)[i] != PartNames(env, parts)[j]
  {
    StoredNameInjective(env.uploadDir, env.now(i), parts[i].filename, env.now(j), parts[j].filename);
  }

  /**
   * When every part passes and the clock never repeats, the request redirects with 303 and
   * writes exactly one new path per part, each holding that part's bytes.
   */
  lemma AllPartsStored(req: Request, dir: Directory, env: Env)
    requires req.httpMethod == "POST" && req.formParsed
    requires forall j :: 0 <= j < |FileParts(req)| ==> PartFailure(FileParts(req)[j], env.sniff).None?
    requires forall i, j :: 0 <= i < j < |FileParts(req)| ==> env.now(i) != env.now(j)
    ensures UploadOutcome(req, dir, env).status == StatusSeeOther
    ensures UploadOutcome(req, dir, env).files.Keys == dir.Keys + NameSet(PartNames(env, FileParts(req)), |FileParts(req)|)
    ensures |NameSet(PartNames(env, FileParts(req)), |FileParts(req)|)| == |FileParts(req)|
    ensures forall j :: 0 <= j < |FileParts(req)| ==>
      UploadOutcome(req, dir, env).files[PartNames(env, FileParts(req))[j]] == FileParts(req)[j].content
  {
    var parts := FileParts(req);
    var names := PartNames(env, parts);
    OutcomeAtSuccess(req, dir, env);
    forall i, j | 0 <= i < j < |parts|
      ensures names[i] != names[j]
    {
      DistinctTimestampsGiveDistinctNames(env, parts, i, j);
    }
    PersistDistinct(dir, names, parts, |parts|);
  }

  /**
   * Two parts before the first failure with the same timestamp and the same original
   * extension share one path, and the later part's bytes replace the earlier part's,
   * whether or not a later part fails afterwards.
   */
  lemma RepeatedTimestampOverwrites(req: Request, dir: Directory, env: Env, i: nat, j: nat)
    requires req.httpMethod == "POST" && req.formParsed
    requires i < j < FirstFailure(FileParts(req), env.sniff)
    requires env.now(i) == env.now(j) && Ext(FileParts(req)[i].filename) == Ext(FileParts(req)[j].filename)
    requires forall l :: j < l < CreatedCount(FileParts(req), env.sniff) ==>
      PartNames(env, FileParts(req))[l] != PartNames(env, FileParts(req))[j]
    ensures PartNames(env, FileParts(req))[i] == PartNames(env, FileParts(req))[j]
    ensures PartNames(env, FileParts(req))[i] in UploadOutcome(req, dir, env).files
    ensures UploadOutcome(req, dir, env).files[PartNames(env, FileParts(req))[i]] == FileParts(req)[j].content
  {
    var parts := FileParts(req);
    var names := PartNames(env, parts);
    StoredNameInjective(env.uploadDir, env.now(i), parts[i].filename, env.now(j), parts[j].filename);
    LastWriteWins(dir, names, parts, CreatedCount(parts, env.sniff), j);
  }

  /** A digit string followed by an extension ends in a 4-character dotted suffix only through the extension. */
  lemma DottedSuffixOfStoredName(t: int, f: string, s: string)
    requires |s| == 4 && s[0] == '.'
    ensures HasSuffix(StoredBaseName(t, f), s) <==> Ext(f) == s
  {
    var d, e := Decimal(t), Ext(f);
    DecimalHasNoDot(t);
    ExtShape(f);
    if HasSuffix(d + e, s) {
      var p := |d + e| - 4;
      assert (d + e)[p] == '.';
      if p < |d| {
        assert false;
      }
      assert e[p - |d|] == '.';
      assert e == (d + e)[|d|..];
    }
  }

  /**
   * A stored upload shows in the listing exactly when its original filename ended in
   * `.mp4`, `.jpg` or `.png`; the sniffed type does not matter.
   */
  lemma StoredUploadListedIff(t: int, f: string)
    ensures IsMediaName(StoredBaseName(t, f)) <==> Ext(f) == ".mp4" || Ext(f) == ".jpg" || Ext(f) == ".png"
  {
    DottedSuffixOfStoredName(t, f, ".mp4");
    DottedSuffixOfStoredName(t, f, ".jpg");
    DottedSuffixOfStoredName(t, f, ".png");
  }

  /**
   * A JPEG uploaded as `photo.jpeg` passes every check, yet it is stored as
   * `<timestamp>.jpeg`, a name the listing never shows.
   */
  lemma JpegUploadNeverListed(t: int, f: string)
    requires HasSuffix(f, ".jpeg")
    ensures Ext(f) == ".jpeg"
    ensures !IsMediaName(StoredBaseName(t, f))
  {
    ExtOfDottedSuffix(f, ".jpeg");
    StoredUploadListedIff(t, f);
  }
}
