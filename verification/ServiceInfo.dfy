/**
 * The owner's service-info configuration: the validator that resolves and checks it in place, and
 * what the module generator later makes of each operation.
 */
module ServiceInfo {
  import opened Wrappers
  import Hex

  datatype CommandParams = CommandParams(command: string, args: seq<string>, mayFail: bool,
                                         retStdout: bool, retStderr: bool)
  datatype UploadFile = UploadFile(src: string, dst: string)
  datatype UploadParams = UploadParams(dir: string, files: seq<UploadFile>)
  datatype DownloadFile = DownloadFile(src: string, dst: string, mayFail: bool)
  datatype DownloadParams = DownloadParams(dir: string, files: seq<DownloadFile>)
  datatype WgetFile = WgetFile(url: string, dst: string, length: int, checksum: string)
  datatype WgetParams = WgetParams(dir: string, files: seq<WgetFile>)

  /** Raw parameters, as what mapstructure.Decode makes of them for each type; None is its error. */
  datatype Raw = Raw(command: Option<CommandParams>, upload: Option<UploadParams>,
                     download: Option<DownloadParams>, wget: Option<WgetParams>)

  /** The four typed fields are nil pointers until UnmarshalParams fills one of them. */
  datatype Op = Op(fsim: string, raw: Option<Raw>, command: Option<CommandParams>, upload: Option<UploadParams>,
                   download: Option<DownloadParams>, wget: Option<WgetParams>)

  datatype Default = Default(fsim: string, dir: string)

  datatype Url = Url(scheme: string, host: string, path: string)

  /** os.Stat (None is an error, else whether it is a directory), path functions and url.Parse. */
  datatype Host = Host(stat: string -> Option<bool>, isAbs: string -> bool, join: (string, string) -> string,
                       base: string -> string, parseUrl: string -> Option<Url>)

  const COMMAND := "fdo.command"
  const UPLOAD := "fdo.upload"
  const DOWNLOAD := "fdo.download"
  const WGET := "fdo.wget"

  const CHECKSUM_LENGTH: nat := 48

  // Resolving one operation --------------------------------------------------------------------

  /** UnmarshalParams: fill the typed field of the operation's FSIM and drop the raw parameters. */
  function Unmarshal(op: Op): (bool, Op) {
    if op.raw.None? then (false, op)
    else
      var raw := op.raw.value;
      if op.fsim == COMMAND && raw.command.Some? then (true, op.(command := raw.command, raw := None))
      else if op.fsim == UPLOAD && raw.upload.Some? then (true, op.(upload := raw.upload, raw := None))
      else if op.fsim == DOWNLOAD && raw.download.Some? then (true, op.(download := raw.download, raw := None))
      else if op.fsim == WGET && raw.wget.Some? then (true, op.(wget := raw.wget, raw := None))
      else (false, op)
  }

  /** The directory of the first default for an FSIM, or the empty string. */
  function DefaultDir(defaults: seq<Default>, fsim: string): string {
    if defaults == [] then "" else if defaults[0].fsim == fsim then defaults[0].dir
    else DefaultDir(defaults[1..], fsim)
  }

  function ApplyDefault(defaults: seq<Default>, op: Op): Op {
    if op.fsim == DOWNLOAD && op.download.Some? && op.download.value.dir == "" then
      op.(download := Some(op.download.value.(dir := DefaultDir(defaults, DOWNLOAD))))
    else if op.fsim == UPLOAD && op.upload.Some? && op.upload.value.dir == "" then
      op.(upload := Some(op.upload.value.(dir := DefaultDir(defaults, UPLOAD))))
    else if op.fsim == WGET && op.wget.Some? && op.wget.value.dir == "" then
      op.(wget := Some(op.wget.value.(dir := DefaultDir(defaults, WGET))))
    else op
  }

  // Checking one operation ---------------------------------------------------------------------

  function SourcePath(h: Host, dir: string, src: string): string {
    if h.isAbs(src) then src else h.join(dir, src)
  }

  predicate UploadFileOk(h: Host, f: UploadFile) { f.src != "" && (f.dst != "" ==> !h.isAbs(f.dst)) }

  predicate DownloadFileOk(h: Host, dir: string, f: DownloadFile) {
    f.src != "" && f.dst != "" && h.stat(SourcePath(h, dir, f.src)).Some?
  }

  predicate ChecksumOk(s: string) {
    s == "" || (Hex.Decode(s).Some? && |Hex.Decode(s).value| == CHECKSUM_LENGTH)
  }

  predicate WgetFileOk(h: Host, f: WgetFile) {
    && f.url != ""
    && h.parseUrl(f.url).Some?
    && (h.parseUrl(f.url).value.scheme == "http" || h.parseUrl(f.url).value.scheme == "https")
    && h.parseUrl(f.url).value.host != ""
    && ChecksumOk(f.checksum)
  }

  predicate OpOk(h: Host, op: Op) {
    if op.fsim == COMMAND then op.command.Some? && op.command.value.command != ""
    else if op.fsim == UPLOAD then
      op.upload.Some? && op.upload.value.files != []
      && forall f :: f in op.upload.value.files ==> UploadFileOk(h, f)
    else if op.fsim == DOWNLOAD then
      op.download.Some? && op.download.value.files != []
      && forall f :: f in op.download.value.files ==> DownloadFileOk(h, op.download.value.dir, f)
    else
      op.fsim == WGET && op.wget.Some? && op.wget.value.files != []
      && forall f :: f in op.wget.value.files ==> WgetFileOk(h, f)
  }

  /** One turn of the validator's loop: whether the operation passes, and what it has become. */
  function ValidateOp(h: Host, defaults: seq<Default>, op: Op): (bool, Op) {
    var (ok, op') := Unmarshal(op);
    if !ok then (false, op')
    else
      var resolved := ApplyDefault(defaults, op');
      (OpOk(h, resolved), resolved)
  }

  // Defaults -----------------------------------------------------------------------------------

  predicate DefaultOk(h: Host, d: Default) {
    && (d.fsim == DOWNLOAD || d.fsim == UPLOAD || d.fsim == WGET)
    && (d.dir != "" ==> h.isAbs(d.dir))
    && (d.fsim != WGET ==> h.stat(d.dir) == Some(true))
  }

  predicate DefaultsOk(h: Host, defaults: seq<Default>) {
    && (forall i :: 0 <= i < |defaults| ==> DefaultOk(h, defaults[i]))
    && (forall i, j :: 0 <= i < j < |defaults| ==> defaults[i].fsim != defaults[j].fsim)
  }

  /** With no duplicates, the default directory is that of the only entry for the FSIM. */
  lemma {:induction false} DefaultDirUnique(defaults: seq<Default>, i: nat)
    requires i < |defaults|
    requires forall j, k :: 0 <= j < k < |defaults| ==> defaults[j].fsim != defaults[k].fsim
    ensures DefaultDir(defaults, defaults[i].fsim) == defaults[i].dir
  {
    if i > 0 {
      assert defaults[0].fsim != defaults[i].fsim;
      var rest := defaults[1..];
      assert forall j :: 0 <= j < |rest| ==> rest[j] == defaults[j + 1];
      DefaultDirUnique(rest, i - 1);
    }
  }

  /** The first entry for an FSIM gives its directory; without one there is none. */
  lemma {:induction false} DefaultDirFirst(defaults: seq<Default>, fsim: string, i: nat)
    requires i <= |defaults| && forall j :: 0 <= j < i ==> defaults[j].fsim != fsim
    requires i < |defaults| ==> defaults[i].fsim == fsim
    ensures DefaultDir(defaults, fsim) == if i < |defaults| then defaults[i].dir else ""
  {
    if i > 0 {
      assert defaults[0].fsim != fsim;
      assert forall j :: 0 <= j < |defaults[1..]| ==> defaults[1..][j] == defaults[j + 1];
      DefaultDirFirst(defaults[1..], fsim, i - 1);
    }
  }

  /** Which defaults pass: server-side directories exist and are absolute, and no FSIM occurs twice. */
  lemma DefaultsExactly(h: Host, defaults: seq<Default>)
    ensures DefaultsOk(h, defaults)
            <==> (forall i :: 0 <= i < |defaults| ==>
                    var d := defaults[i];
                    && (d.fsim == "fdo.download" || d.fsim == "fdo.upload" || d.fsim == "fdo.wget")
                    && (d.dir == "" || h.isAbs(d.dir))
                    && (d.fsim == "fdo.download" || d.fsim == "fdo.upload" ==> h.stat(d.dir) == Some(true)))
                 && forall i, j :: 0 <= i < j < |defaults| ==> defaults[i].fsim != defaults[j].fsim
  {
    forall i | 0 <= i < |defaults|
      ensures var d := defaults[i];
              DefaultOk(h, d) <==> && (d.fsim == "fdo.download" || d.fsim == "fdo.upload" || d.fsim == "fdo.wget")
                                   && (d.dir == "" || h.isAbs(d.dir))
                                   && (d.fsim == "fdo.download" || d.fsim == "fdo.upload" ==> h.stat(d.dir) == Some(true))
    {
    }
  }

  class Config {
    const h: Host
    var defaults: seq<Default>
    var fsims: seq<Op>

    constructor (h: Host, defaults: seq<Default>, fsims: seq<Op>)
      ensures this.h == h && this.defaults == defaults && this.fsims == fsims
    {
      this.h := h;
      this.defaults := defaults;
      this.fsims := fsims;
    }

    method GetDefaultDir(fsim: string) returns (dir: string)
      ensures dir == DefaultDir(defaults, fsim)
    {
      assert defaults[0..] == defaults;
      for i := 0 to |defaults|
        invariant DefaultDir(defaults, fsim) == DefaultDir(defaults[i..], fsim)
      {
        assert defaults[i..][1..] == defaults[i + 1..];
        if defaults[i].fsim == fsim {
          return defaults[i].dir;
        }
      }
      return "";
    }

    method ValidateDefaults() returns (ok: bool)
      ensures ok == DefaultsOk(h, defaults)
    {
      var seen: set<string> := {};
      for i := 0 to |defaults|
        invariant forall j :: 0 <= j < i ==> DefaultOk(h, defaults[j])
        invariant seen == set j | 0 <= j < i :: defaults[j].fsim
        invariant forall j, k :: 0 <= j < k < i ==> defaults[j].fsim != defaults[k].fsim
      {
        var d := defaults[i];
        if d.fsim != DOWNLOAD && d.fsim != UPLOAD && d.fsim != WGET {
          assert !DefaultOk(h, defaults[i]);
          return false;
        }
        if d.fsim in seen {
          return false;
        }
        seen := seen + {d.fsim};
        if d.dir != "" && !h.isAbs(d.dir) {
          assert !DefaultOk(h, defaults[i]);
          return false;
        }
        if d.fsim != WGET && h.stat(d.dir) != Some(true) {
          assert !DefaultOk(h, defaults[i]);
          return false;
        }
      }
      return true;
    }

    method UnmarshalParams(op: Op) returns (ok: bool, r: Op)
      ensures (ok, r) == Unmarshal(op)
    {
      r := op;
      if op.raw.None? {
        return false, r;
      }
      var raw := op.raw.value;
      if op.fsim == COMMAND {
        if raw.command.None? {
          return false, r;
        }
        r := r.(command := raw.command);
      } else if op.fsim == UPLOAD {
        if raw.upload.None? {
          return false, r;
        }
        r := r.(upload := raw.upload);
      } else if op.fsim == DOWNLOAD {
        if raw.download.None? {
          return false, r;
        }
        r := r.(download := raw.download);
      } else if op.fsim == WGET {
        if raw.wget.None? {
          return false, r;
        }
        r := r.(wget := raw.wget);
      } else {
        return false, r;
      }
      r := r.(raw := None);
      return true, r;
    }

    /** Use the default directory where the operation gives none. */
    method FillDir(op: Op) returns (r: Op)
      ensures r == ApplyDefault(defaults, op)
    {
      r := op;
      if op.fsim == DOWNLOAD && op.download.Some? && op.download.value.dir == "" {
        var dir := GetDefaultDir(DOWNLOAD);
        r := op.(download := Some(op.download.value.(dir := dir)));
      } else if op.fsim == UPLOAD && op.upload.Some? && op.upload.value.dir == "" {
        var dir := GetDefaultDir(UPLOAD);
        r := op.(upload := Some(op.upload.value.(dir := dir)));
      } else if op.fsim == WGET && op.wget.Some? && op.wget.value.dir == "" {
        var dir := GetDefaultDir(WGET);
        r := op.(wget := Some(op.wget.value.(dir := dir)));
      }
    }

    method CheckUploads(files: seq<UploadFile>) returns (ok: bool)
      ensures ok <==> files != [] && forall f :: f in files ==> UploadFileOk(h, f)
    {
      for j := 0 to |files|
        invariant forall i :: 0 <= i < j ==> UploadFileOk(h, files[i])
      {
        if files[j].src == "" || (files[j].dst != "" && h.isAbs(files[j].dst)) {
          assert files[j] in files && !UploadFileOk(h, files[j]);
          return false;
        }
      }
      return files != [];
    }

    method CheckDownloads(dir: string, files: seq<DownloadFile>) returns (ok: bool)
      ensures ok <==> files != [] && forall f :: f in files ==> DownloadFileOk(h, dir, f)
    {
      for j := 0 to |files|
        invariant forall i :: 0 <= i < j ==> DownloadFileOk(h, dir, files[i])
      {
        var f := files[j];
        var srcPath := if h.isAbs(f.src) then f.src else h.join(dir, f.src);
        if f.src == "" || f.dst == "" || h.stat(srcPath).None? {
          assert files[j] in files && !DownloadFileOk(h, dir, files[j]);
          return false;
        }
      }
      return files != [];
    }

    method CheckWgets(files: seq<WgetFile>) returns (ok: bool)
      ensures ok <==> files != [] && forall f :: f in files ==> WgetFileOk(h, f)
    {
      for j := 0 to |files|
        invariant forall i :: 0 <= i < j ==> WgetFileOk(h, files[i])
      {
        var f := files[j];
        var url := h.parseUrl(f.url);
        var bad := f.url == "" || url.None?
          || (url.value.scheme != "http" && url.value.scheme != "https") || url.value.host == "";
        if !bad && f.checksum != "" {
          var decoded := Hex.Decode(f.checksum);
          bad := decoded.None? || |decoded.value| != 48;
        }
        if bad {
          assert files[j] in files && !WgetFileOk(h, files[j]);
          return false;
        }
      }
      return files != [];
    }

    method CheckOp(op: Op) returns (ok: bool)
      ensures ok == OpOk(h, op)
    {
      if op.fsim == COMMAND {
        ok := op.command.Some? && op.command.value.command != "";
      } else if op.fsim == UPLOAD {
        ok := op.upload.Some?;
        if ok {
          ok := CheckUploads(op.upload.value.files);
        }
      } else if op.fsim == DOWNLOAD {
        ok := op.download.Some?;
        if ok {
          ok := CheckDownloads(op.download.value.dir, op.download.value.files);
        }
      } else if op.fsim == WGET {
        ok := op.wget.Some?;
        if ok {
          ok := CheckWgets(op.wget.value.files);
        }
      } else {
        ok := false;
      }
    }

    /**
     * validate: defaults first, then every operation resolved in place and checked, up to the first
     * bad one; later ones are untouched.
     */
    method Validate() returns (ok: bool)
      modifies this`fsims
      ensures |fsims| == |old(fsims)|
      ensures ok ==> DefaultsOk(h, defaults)
                     && forall i :: 0 <= i < |fsims| ==> ValidateOp(h, defaults, old(fsims)[i]) == (true, fsims[i])
      ensures !ok && DefaultsOk(h, defaults) ==>
                exists n :: 0 <= n < |fsims| && ValidateOp(h, defaults, old(fsims)[n]) == (false, fsims[n])
                            && (forall i :: 0 <= i < n ==> ValidateOp(h, defaults, old(fsims)[i]) == (true, fsims[i]))
                            && forall i :: n < i < |fsims| ==> fsims[i] == old(fsims)[i]
      ensures !DefaultsOk(h, defaults) ==> !ok && fsims == old(fsims)
    {
      ok := ValidateDefaults();
      if !ok {
        return;
      }
      for i := 0 to |fsims|
        invariant |fsims| == |old(fsims)|
        invariant forall j :: 0 <= j < i ==> ValidateOp(h, defaults, old(fsims)[j]) == (true, fsims[j])
        invariant forall j :: i <= j < |fsims| ==> fsims[j] == old(fsims)[j]
      {
        var decoded, op := UnmarshalParams(fsims[i]);
        fsims := fsims[i := op];
        if !decoded {
          assert ValidateOp(h, defaults, old(fsims)[i]) == (false, fsims[i]);
          return false;
        }
        op := FillDir(op);
        fsims := fsims[i := op];
        var passes := CheckOp(op);
        if !passes {
          assert ValidateOp(h, defaults, old(fsims)[i]) == (false, fsims[i]);
          return false;
        }
      }
      return true;
    }
  }

  // What the generator makes of an operation ---------------------------------------------------

  datatype Item =
    | DownloadItem(path: string, name: string, mustDownload: bool)
    | UploadItem(dir: string, name: string, dst: string)
    | WgetItem(name: string, url: Url, length: int, checksum: Bytes)
    | CommandItem(params: CommandParams)

  function WgetName(h: Host, dir: string, f: WgetFile, url: Url): string {
    if f.dst != "" then
      if h.isAbs(f.dst) || dir == "" then f.dst else h.join(dir, f.dst)
    else if dir != "" then h.join(dir, h.base(url.path))
    else h.base(url.path)
  }

  /** A file whose URL or checksum does not decode is logged and dropped. */
  function WgetItems(h: Host, dir: string, files: seq<WgetFile>): seq<Item> {
    if files == [] then []
    else
      var f := files[0];
      var rest := WgetItems(h, dir, files[1..]);
      match (h.parseUrl(f.url), Hex.Decode(f.checksum))
      case (Some(url), Some(sum)) =>
        [WgetItem(WgetName(h, dir, f, url), url, if f.length > 0 then f.length else 0, sum)] + rest
      case _ => rest
  }

  function DownloadItems(h: Host, dir: string, files: seq<DownloadFile>): (r: seq<Item>)
    ensures |r| == |files|
  {
    seq(|files|, i requires 0 <= i < |files| =>
      DownloadItem(SourcePath(h, dir, files[i].src), files[i].dst, !files[i].mayFail))
  }

  function UploadItems(dir: string, files: seq<UploadFile>): (r: seq<Item>)
    ensures |r| == |files|
  {
    seq(|files|, i requires 0 <= i < |files| =>
      UploadItem(if dir == "" then "." else dir, files[i].src, files[i].dst))
  }

  /** The items one operation stands for; None where the generator would follow a nil pointer. */
  function ItemsOf(h: Host, op: Op): Option<seq<Item>> {
    if op.fsim == DOWNLOAD then
      match op.download case Some(p) => Some(DownloadItems(h, p.dir, p.files)) case None => None
    else if op.fsim == UPLOAD then
      match op.upload case Some(p) => Some(UploadItems(p.dir, p.files)) case None => None
    else if op.fsim == WGET then
      match op.wget case Some(p) => Some(WgetItems(h, p.dir, p.files)) case None => None
    else if op.fsim == COMMAND then
      match op.command case Some(p) => Some([CommandItem(p)]) case None => None
    else Some([])
  }

  function FileCount(op: Op): nat {
    if op.fsim == DOWNLOAD && op.download.Some? then |op.download.value.files|
    else if op.fsim == UPLOAD && op.upload.Some? then |op.upload.value.files|
    else if op.fsim == WGET && op.wget.Some? then |op.wget.value.files|
    else 1
  }

  lemma {:induction false} WgetItemsKept(h: Host, dir: string, files: seq<WgetFile>)
    requires forall f :: f in files ==> WgetFileOk(h, f)
    ensures |WgetItems(h, dir, files)| == |files|
    ensures forall i :: 0 <= i < |files| ==>
              && WgetItems(h, dir, files)[i].WgetItem?
              && Some(WgetItems(h, dir, files)[i].url) == h.parseUrl(files[i].url)
              && |WgetItems(h, dir, files)[i].checksum| == if files[i].checksum == "" then 0 else CHECKSUM_LENGTH
  {
    if files != [] {
      assert files[0] in files && WgetFileOk(h, files[0]);
      WgetItemsKept(h, dir, files[1..]);
      assert forall i :: 0 < i < |files| ==> WgetItems(h, dir, files)[i] == WgetItems(h, dir, files[1..])[i - 1];
    }
  }

  /**
   * Validation justifies use: for every operation of a validated configuration the generator meets
   * no nil pointer and drops no file; each download opens the very path the validator found, with
   * its directory from the operation or the defaults; each checksum is absent or 48 bytes.
   */
  lemma ValidatedOpUsable(h: Host, defaults: seq<Default>, before: Op, op: Op)
    requires ValidateOp(h, defaults, before) == (true, op)
    ensures ItemsOf(h, op).Some? && |ItemsOf(h, op).value| == FileCount(op) >= 1
    ensures forall i :: 0 <= i < |ItemsOf(h, op).value| ==>
              var item := ItemsOf(h, op).value[i];
              && (item.DownloadItem? ==> h.stat(item.path).Some?)
              && (item.WgetItem? ==> |item.checksum| == 0 || |item.checksum| == CHECKSUM_LENGTH)
              && (item.UploadItem? ==> item.dst == "" || !h.isAbs(item.dst))
    ensures op.fsim == DOWNLOAD ==>
              op.download.value.dir == if before.raw.value.download.value.dir != ""
                                       then before.raw.value.download.value.dir
                                       else DefaultDir(defaults, DOWNLOAD)
  {
    if op.fsim == WGET {
      WgetItemsKept(h, op.wget.value.dir, op.wget.value.files);
    } else if op.fsim == DOWNLOAD {
      var p := op.download.value;
      forall i | 0 <= i < |p.files|
        ensures h.stat(DownloadItems(h, p.dir, p.files)[i].path).Some?
      {
        assert p.files[i] in p.files && DownloadFileOk(h, p.dir, p.files[i]);
      }
    } else if op.fsim == UPLOAD {
      var p := op.upload.value;
      forall i | 0 <= i < |p.files|
        ensures UploadItems(p.dir, p.files)[i].dst == "" || !h.isAbs(UploadItems(p.dir, p.files)[i].dst)
      {
        assert p.files[i] in p.files && UploadFileOk(h, p.files[i]);
      }
    }
  }

  /** The directory an operation works in: its own, or else the default for its FSIM. */
  function DirOf(defaults: seq<Default>, fsim: string, dir: string): string {
    if dir != "" then dir else DefaultDir(defaults, fsim)
  }

  /** Which operations pass, by FSIM, from the raw parameters. */
  lemma AcceptedExactly(h: Host, defaults: seq<Default>, op: Op)
    ensures op.raw.None? ==> !ValidateOp(h, defaults, op).0
    ensures op.fsim !in {"fdo.command", "fdo.upload", "fdo.download", "fdo.wget"} ==> !ValidateOp(h, defaults, op).0
    ensures op.raw.Some? && op.fsim == "fdo.command" ==>
              (ValidateOp(h, defaults, op).0
               <==> op.raw.value.command.Some? && op.raw.value.command.value.command != "")
    ensures op.raw.Some? && op.fsim == "fdo.upload" ==>
              (ValidateOp(h, defaults, op).0
               <==> && op.raw.value.upload.Some? && op.raw.value.upload.value.files != []
                    && forall f :: f in op.raw.value.upload.value.files ==>
                         f.src != "" && (f.dst == "" || !h.isAbs(f.dst)))
    ensures op.raw.Some? && op.fsim == "fdo.download" ==>
              (ValidateOp(h, defaults, op).0
               <==> && op.raw.value.download.Some? && op.raw.value.download.value.files != []
                    && var dir := DirOf(defaults, "fdo.download", op.raw.value.download.value.dir);
                       forall f :: f in op.raw.value.download.value.files ==>
                         && f.src != "" && f.dst != ""
                         && h.stat(if h.isAbs(f.src) then f.src else h.join(dir, f.src)).Some?)
    ensures op.raw.Some? && op.fsim == "fdo.wget" ==>
              (ValidateOp(h, defaults, op).0
               <==> && op.raw.value.wget.Some? && op.raw.value.wget.value.files != []
                    && forall f :: f in op.raw.value.wget.value.files ==>
                         && f.url != "" && h.parseUrl(f.url).Some?
                         && h.parseUrl(f.url).value.scheme in {"http", "https"} && h.parseUrl(f.url).value.host != ""
                         && (f.checksum == "" || (|f.checksum| == 96 && Hex.IsHex(f.checksum))))
  {
    hide Hex.Decode, Hex.IsHex, DefaultDir;
    forall s: string
      ensures ChecksumOk(s) <==> s == "" || (|s| == 96 && Hex.IsHex(s))
    {
      Hex.DecodesExactly(s);
    }
  }

  /** Item i of a validated download: the path of file i, its name on the device, and whether it is needed. */
  lemma DownloadItemsExactly(h: Host, defaults: seq<Default>, before: Op, op: Op, i: nat)
    requires ValidateOp(h, defaults, before) == (true, op) && before.fsim == "fdo.download"
    ensures var p := before.raw.value.download.value;
            && ItemsOf(h, op).Some? && |ItemsOf(h, op).value| == |p.files|
            && (i < |p.files| ==>
                  var f, dir := p.files[i], DirOf(defaults, "fdo.download", p.dir);
                  ItemsOf(h, op).value[i]
                  == DownloadItem(if h.isAbs(f.src) then f.src else h.join(dir, f.src), f.dst, !f.mayFail))
  {
  }

  /** Item i of a validated upload: its directory, "." if there is none, and the two names of file i. */
  lemma UploadItemsExactly(h: Host, defaults: seq<Default>, before: Op, op: Op, i: nat)
    requires ValidateOp(h, defaults, before) == (true, op) && before.fsim == "fdo.upload"
    ensures var p := before.raw.value.upload.value;
            && ItemsOf(h, op).Some? && |ItemsOf(h, op).value| == |p.files|
            && (i < |p.files| ==>
                  var f, dir := p.files[i], DirOf(defaults, "fdo.upload", p.dir);
                  ItemsOf(h, op).value[i] == UploadItem(if dir == "" then "." else dir, f.src, f.dst))
  {
  }

  /**
   * Item i of a validated wget, from file i: the name on the device (an absolute destination as it
   * is, a relative one or else the last part of the URL under the directory, if there is one), the
   * parsed URL, the length if positive, and the decoded checksum.
   */
  lemma WgetItemsExactly(h: Host, defaults: seq<Default>, before: Op, op: Op, i: nat)
    requires ValidateOp(h, defaults, before) == (true, op) && before.fsim == "fdo.wget"
    ensures var p := before.raw.value.wget.value;
            && ItemsOf(h, op).Some? && |ItemsOf(h, op).value| == |p.files|
            && (i < |p.files| ==>
                  var f, dir, item := p.files[i], DirOf(defaults, "fdo.wget", p.dir), ItemsOf(h, op).value[i];
                  && item.WgetItem? && Some(item.url) == h.parseUrl(f.url)
                  && item.length == (if f.length > 0 then f.length else 0)
                  && Hex.Encode(item.checksum) == Hex.LowerAll(f.checksum)
                  && item.name == if f.dst != "" && (h.isAbs(f.dst) || dir == "") then f.dst
                                  else if f.dst != "" then h.join(dir, f.dst)
                                  else if dir != "" then h.join(dir, h.base(item.url.path))
                                  else h.base(item.url.path))
  {
    hide Hex.Decode, DefaultDir;
    var p := op.wget.value;
    WgetItemsKept(h, p.dir, p.files);
    if i < |p.files| {
      assert p.files[i] in p.files && WgetFileOk(h, p.files[i]);
      WgetItemAt(h, p.dir, p.files, i);
      Hex.DecodesExactly(p.files[i].checksum);
      Hex.EncodeDecode(p.files[i].checksum);
    }
  }

  lemma {:induction false} WgetItemAt(h: Host, dir: string, files: seq<WgetFile>, i: nat)
    requires i < |files| && forall f :: f in files ==> WgetFileOk(h, f)
    ensures |WgetItems(h, dir, files)| == |files|
    ensures var f := files[i];
            h.parseUrl(f.url).Some? && Hex.Decode(f.checksum).Some?
            && WgetItems(h, dir, files)[i]
               == WgetItem(WgetName(h, dir, f, h.parseUrl(f.url).value), h.parseUrl(f.url).value,
                           if f.length > 0 then f.length else 0, Hex.Decode(f.checksum).value)
  {
    WgetItemsKept(h, dir, files);
    assert files[0] in files && WgetFileOk(h, files[0]);
    if i > 0 {
      assert forall f :: f in files[1..] ==> f in files;
      WgetItemAt(h, dir, files[1..], i - 1);
    }
  }

  /** A validated command runs the command of its raw parameters. */
  lemma CommandItemExactly(h: Host, defaults: seq<Default>, before: Op, op: Op)
    requires ValidateOp(h, defaults, before) == (true, op) && before.fsim == "fdo.command"
    ensures ItemsOf(h, op) == Some([CommandItem(before.raw.value.command.value)])
    ensures op.fsim == before.fsim
  {
  }

  /** Validation runs once: it drops the raw parameters, so a second run fails on the first operation. */
  lemma SecondValidationFails(h: Host, defaults: seq<Default>, before: Op, op: Op)
    requires ValidateOp(h, defaults, before) == (true, op)
    ensures ValidateOp(h, defaults, op) == (false, op)
  {
  }
}
