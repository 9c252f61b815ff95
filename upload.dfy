/**
 * The upload handler of main.go:58-126. A request is checked for its method and its
 * multipart body, then every part of the form field `file` is validated and written to
 * the upload directory in order; the first failing part ends the request with its status.
 */
module Upload {
  import opened Common
  import opened Naming
  import opened ProgressCounter

  /** 512 MiB: the largest declared part size that passes the size check. */
  const MaxUploadSize: int := 512 * 1024 * 1024
  /** The length of the buffer handed to the content sniffer. */
  const SniffLength: nat := 512

  const StatusSeeOther: int := 303
  const StatusBadRequest: int := 400
  const StatusMethodNotAllowed: int := 405
  const StatusInternalServerError: int := 500

  /**
   * The outcome of each foreign call made while one part is handled: opening it,
   * reading its first bytes, seeking back to its start, creating the upload directory,
   * creating the destination file and copying. When the copy fails, `copiedBeforeFailure`
   * bytes reached the file first.
   */
  datatype PartIo = PartIo(
    openOk: bool,
    readOk: bool,
    seekOk: bool,
    mkdirOk: bool,
    createOk: bool,
    copyOk: bool,
    copiedBeforeFailure: nat)

  /** One uploaded file part: its declared size, original filename and bytes. */
  datatype FilePart = FilePart(size: int64, filename: string, content: seq<byte>, io: PartIo)

  /**
   * What the handler sees of a request: its method, whether the multipart body parsed,
   * and the parsed form's file fields.
   */
  datatype Request = Request(httpMethod: string, formParsed: bool, fileFields: map<string, seq<FilePart>>)

  /** The upload directory's files, by the path they were created under. */
  type Directory = map<string, seq<byte>>

  /**
   * The inputs that stand for foreign code: the configured upload directory, the clock
   * (`now(i)` is the UnixNano reading taken for the i-th part), and the content sniffer
   * applied to the 512-byte buffer.
   */
  datatype Env = Env(uploadDir: string, now: nat -> int, sniff: seq<byte> -> string)

  datatype Response = Response(status: int, files: Directory)

  /** Why a part was refused, one kind per early return of the loop. */
  datatype Failure =
    | TooBig | OpenFailed | ReadFailed | TypeNotAllowed
    | SeekFailed | MkdirFailed | CreateFailed | CopyFailed

  function StatusOf(f: Failure): int
  {
    match f
    case TooBig => StatusBadRequest
    case OpenFailed => StatusInternalServerError
    case ReadFailed => StatusInternalServerError
    case TypeNotAllowed => StatusBadRequest
    case SeekFailed => StatusInternalServerError
    case MkdirFailed => StatusInternalServerError
    case CreateFailed => StatusBadRequest
    case CopyFailed => StatusBadRequest
  }

  /** `r.MultipartForm.File["file"]`: a missing field reads as no parts. */
  function FileParts(req: Request): seq<FilePart>
  {
    if "file" in req.fileFields then req.fileFields["file"] else []
  }

  /**
   * The 512-byte buffer after one read: the part's first bytes, then the zeros
   * `make([]byte, 512)` started with.
   */
  function SniffBuffer(content: seq<byte>): (buf: seq<byte>)
    ensures |buf| == SniffLength
    ensures forall i :: 0 <= i < SniffLength ==> buf[i] == if i < |content| then content[i] else 0
  {
    var n := Min(|content|, SniffLength);
    content[..n] + seq(SniffLength - n, _ => 0 as byte)
  }

  /** The content-type whitelist. */
  predicate AllowedType(t: string)
  {
    t == "video/mp4" || t == "image/jpeg" || t == "image/png"
  }

  /** A read of a part at its start fails on an I/O error and, with io.EOF, on an empty part. */
  predicate ReadSucceeds(p: FilePart)
  {
    p.io.readOk && |p.content| > 0
  }

  /** The first check from the size cap up to creating the file that `p` fails, if any. */
  function CreateFailure(p: FilePart, sniff: seq<byte> -> string): Option<Failure>
  {
    if p.size as int > MaxUploadSize then Some(TooBig)
    else if !p.io.openOk then Some(OpenFailed)
    else if !ReadSucceeds(p) then Some(ReadFailed)
    else if !AllowedType(sniff(SniffBuffer(p.content))) then Some(TypeNotAllowed)
    else if !p.io.seekOk then Some(SeekFailed)
    else if !p.io.mkdirOk then Some(MkdirFailed)
    else if !p.io.createOk then Some(CreateFailed)
    else None
  }

  /** The check that `p` fails, if any, the copy included. */
  function PartFailure(p: FilePart, sniff: seq<byte> -> string): Option<Failure>
  {
    match CreateFailure(p, sniff)
    case Some(f) => Some(f)
    case None => if p.io.copyOk then None else Some(CopyFailed)
  }

  /** What the created file holds once the copy has ended, successfully or not. */
  function WrittenBytes(p: FilePart): seq<byte>
  {
    if p.io.copyOk then p.content else p.content[..Min(p.io.copiedBeforeFailure, |p.content|)]
  }

  /** The paths the parts are stored under: entry `i` uses the i-th clock reading. */
  function PartNames(env: Env, parts: seq<FilePart>): seq<string>
  {
    seq(|parts|, i requires 0 <= i < |parts| => StoredName(env.uploadDir, env.now(i), parts[i].filename))
  }

  /** The index of the first failing part, or `|parts|` when every part passes. */
  function FirstFailure(parts: seq<FilePart>, sniff: seq<byte> -> string): (k: nat)
    ensures k <= |parts|
    ensures forall i :: 0 <= i < k ==> PartFailure(parts[i], sniff).None?
    ensures k < |parts| ==> PartFailure(parts[k], sniff).Some?
  {
    if parts == [] then 0
    else if PartFailure(parts[0], sniff).Some? then 0
    else 1 + FirstFailure(parts[1..], sniff)
  }

  /**
   * The directory after the files for parts `0..n` were created and written, in order,
   * part `j` under `names[j]`.
   */
  function Persist(dir: Directory, names: seq<string>, parts: seq<FilePart>, n: nat): Directory
    requires n <= |parts| <= |names|
  {
    if n == 0 then dir
    else Persist(dir, names, parts, n - 1)[names[n - 1] := WrittenBytes(parts[n - 1])]
  }

  /** One more part written is one more map update. */
  lemma PersistStep(dir: Directory, names: seq<string>, parts: seq<FilePart>, i: nat)
    requires i < |parts| <= |names|
    ensures Persist(dir, names, parts, i + 1) == Persist(dir, names, parts, i)[names[i] := WrittenBytes(parts[i])]
  {
  }

  /**
   * The number of parts that got a file: every part before the first failing one, and
   * that one too when it failed only in the copy.
   */
  function CreatedCount(parts: seq<FilePart>, sniff: seq<byte> -> string): nat
  {
    var k := FirstFailure(parts, sniff);
    if k < |parts| && CreateFailure(parts[k], sniff).None? then k + 1 else k
  }

  /** The whole handler as a function of the request, the directory and the environment. */
  function UploadOutcome(req: Request, dir: Directory, env: Env): Response
  {
    if req.httpMethod != "POST" then Response(StatusMethodNotAllowed, dir)
    else if !req.formParsed then Response(StatusBadRequest, dir)
    else
      var parts := FileParts(req);
      var k := FirstFailure(parts, env.sniff);
      var status := if k == |parts| then StatusSeeOther else StatusOf(PartFailure(parts[k], env.sniff).value);
      Response(status, Persist(dir, PartNames(env, parts), parts, CreatedCount(parts, env.sniff)))
  }

  /**
   * The loop body for part `i` (main.go:71-122): the check it fails, if any, and the
   * directory afterwards, which has the part's file exactly when the part got as far as
   * creating it. The clock is read only once the part has passed `MkdirAll`.
   */
  method HandlePart(part: FilePart, i: nat, files: Directory, env: Env)
    returns (failure: Option<Failure>, files': Directory)
    ensures failure == PartFailure(part, env.sniff)
    ensures files' == if CreateFailure(part, env.sniff).None?
      then files[StoredName(env.uploadDir, env.now(i), part.filename) := WrittenBytes(part)]
      else files
  {
    files' := files;
    if part.size as int > MaxUploadSize {
      return Some(TooBig), files';
    }
    if !part.io.openOk {
      return Some(OpenFailed), files';
    }
    if !part.io.readOk || |part.content| == 0 {
      return Some(ReadFailed), files';
    }
    var buff := SniffBuffer(part.content);
    var fileType := env.sniff(buff);
    if fileType != "video/mp4" && fileType != "image/jpeg" && fileType != "image/png" {
      return Some(TypeNotAllowed), files';
    }
    if !part.io.seekOk {
      return Some(SeekFailed), files';
    }
    if !part.io.mkdirOk {
      return Some(MkdirFailed), files';
    }
    var name := StoredName(env.uploadDir, env.now(i), part.filename);
    if !part.io.createOk {
      return Some(CreateFailed), files';
    }
    files' := files'[name := []];
    var pr := new Progress(part.size);
    if !part.io.copyOk {
      files' := files'[name := WrittenBytes(part)];
      return Some(CopyFailed), files';
    }
    var copied := CopyThrough(pr, part.content);
    files' := files'[name := copied];
    failure := None;
  }

  /**
   * `uploadHandler`: the status written to the client and the upload directory
   * afterwards. Files written for earlier parts stay when a later part fails.
   */
  method UploadHandler(req: Request, dir: Directory, env: Env) returns (status: int, files: Directory)
    ensures Response(status, files) == UploadOutcome(req, dir, env)
    ensures req.httpMethod != "POST" ==> status == StatusMethodNotAllowed && files == dir
  {
    files := dir;
    if req.httpMethod != "POST" {
      return StatusMethodNotAllowed, files;
    }
    if !req.formParsed {
      return StatusBadRequest, files;
    }
    var parts := FileParts(req);
    ghost var names := PartNames(env, parts);
    for i := 0 to |parts|
      invariant i <= FirstFailure(parts, env.sniff)
      invariant files == Persist(dir, names, parts, i)
    {
      var failure;
      failure, files := HandlePart(parts[i], i, files, env);
      assert StoredName(env.uploadDir, env.now(i), parts[i].filename) == names[i];
      if failure.Some? {
        assert FirstFailure(parts, env.sniff) == i;
        assert files == Persist(dir, names, parts, CreatedCount(parts, env.sniff)) by {
          PersistStep(dir, names, parts, i);
        }
        return StatusOf(failure.value), files;
      }
      assert files == Persist(dir, names, parts, i + 1) by {
        PersistStep(dir, names, parts, i);
      }
    }
    return StatusSeeOther, files;
  }
}
