/** The request-level decisions of the API server in its later revision
    (cmd/tmemes/api.go): the creator filter, editing the context links of a
    macro, and serving macro images from the cache, generating them on a
    miss. The image file system is a set of paths and the ETag cache a map
    from path to tag; decoding, drawing and encoding images are steps whose
    outcome is given. */
module CmdApi {
  import opened Wrappers
  import opened GoStrings
  import opened Tmemes
  import Store
  import TmemesUtils

  // ---------------------------------------------------------------------
  // creatorUserID

  /** The "creator" filter of a listing as the code is written: "" is no
      filter (0), "anon" and "anonymous" are the anonymous creator (-1),
      and anything else must be a positive decimal, which ParseUint reads
      as up to 64 bits and the conversion to the signed 64-bit user ID
      wraps. */
  function CreatorUserIDAsWritten(c: string): Result<UserID, string> {
    if c == "" then Ok(0)
    else if c == "anon" || c == "anonymous" then Ok(-1)
    else match ParseUint64(c)
      case Err(e) => Err("bad creator: " + e)
      case Ok(id) =>
        if id <= 0 then Err("invalid creator")
        else Ok(if id > MaxInt64 then id - (MaxUint64 + 1) else id)
  }

  /** The largest unsigned 64-bit value wraps to -1: the request is taken
      for the anonymous filter, and no error is reported. */
  lemma CreatorWrapsToAnonymous()
    ensures CreatorUserIDAsWritten(Itoa(MaxUint64)) == Ok(-1)
  {
    var c := Itoa(MaxUint64);
    DecimalRoundTrip(MaxUint64);
    assert c == NatToDecimal(MaxUint64);
    assert IsDigit(c[0]);
    assert c != "anon" && c != "anonymous" && c != "";
  }

  /** creatorUserID with the evident intent of its documentation: a
      successful result is 0, -1 or a positive user ID. IDs past the
      signed 64-bit range are refused as out of range. */
  function CreatorUserID(c: string): (r: Result<UserID, string>)
    ensures r == Ok(0) <==> c == ""
    ensures r == Ok(-1) <==> c == "anon" || c == "anonymous"
    ensures r.Ok? && c != "" && c != "anon" && c != "anonymous" ==> 0 < r.value <= MaxInt64
  {
    if c == "" then Ok(0)
    else if c == "anon" || c == "anonymous" then Ok(-1)
    else match ParseUint64(c)
      case Err(e) => Err("bad creator: " + e)
      case Ok(id) =>
        if id <= 0 then Err("invalid creator")
        else if id > MaxInt64 then Err("bad creator: value out of range")
        else Ok(id as int)
  }

  /** "0" is not a user ID. */
  lemma CreatorZeroRefused()
    ensures CreatorUserID("0") == Err("invalid creator")
    ensures CreatorUserIDAsWritten("0") == Err("invalid creator")
  {
    assert "0"[..0] == [];
    assert DecimalValue("0") == 0;
  }

  /** A printed user ID reads back as itself. */
  lemma CreatorRoundTrip(id: int)
    requires 0 < id <= MaxInt64
    ensures CreatorUserID(Itoa(id)) == Ok(id)
  {
    var c := Itoa(id);
    DecimalRoundTrip(id);
    assert c == NatToDecimal(id);
    assert IsDigit(c[0]);
    assert c != "anon" && c != "anonymous" && c != "";
  }

  /** Both readings agree wherever the ID fits in 64 signed bits. */
  lemma CreatorAgrees(c: string)
    requires !(ParseUint64(c).Ok? && ParseUint64(c).value > MaxInt64)
    ensures CreatorUserID(c) == CreatorUserIDAsWritten(c)
  {
  }

  // ---------------------------------------------------------------------
  // Context links

  /** Who may change a macro: its creator or a superuser. */
  predicate MayEdit(caller: UserID, creator: UserID, superUser: bool) {
    caller == creator || superUser
  }

  /** A tmemes.ContextRequest: "add", "remove" or "clear", and a link. */
  datatype ContextRequest = ContextRequest(action: string, link: ContextLink)

  /** slices.Index: the first position of `x`, or -1. */
  function IndexOf<T(==)>(s: seq<T>, x: T): (i: int)
    ensures -1 <= i < |s|
    ensures i >= 0 ==> s[i] == x && forall k :: 0 <= k < i ==> s[k] != x
    ensures i < 0 <==> x !in s
  {
    if |s| == 0 then -1
    else if s[0] == x then 0
    else var j := IndexOf(s[1..], x); if j < 0 then -1 else j + 1
  }

  /** The links after a request, and whether the macro needs writing back;
      or the request's error. */
  function EditLinks(links: seq<ContextLink>, req: ContextRequest, maxLinks: nat): Result<(seq<ContextLink>, bool), string> {
    if req.action != "clear" && req.link.url == "" then Err("missing context URL")
    else if req.action == "add" then
      if IndexOf(links, req.link) >= 0 then Ok((links, false))
      else if |links| >= maxLinks then Err("maximum context links already present")
      else Ok((links + [req.link], true))
    else if req.action == "remove" then
      var i := IndexOf(links, req.link);
      if i >= 0 then Ok((TmemesUtils.Without(links, i), true)) else Ok((links, false))
    else if req.action == "clear" then Ok(([], |links| != 0))
    else Err("invalid action: " + req.action)
  }

  /** A write-back is needed exactly when the links change. */
  lemma EditNeedsUpdateIffChanged(links: seq<ContextLink>, req: ContextRequest, maxLinks: nat)
    requires EditLinks(links, req, maxLinks).Ok?
    ensures var (l, needs) := EditLinks(links, req, maxLinks).value; needs <==> l != links
  {
    if req.action == "remove" && IndexOf(links, req.link) >= 0 {
      TmemesUtils.WithoutIs(links, IndexOf(links, req.link));
    } else if req.action == "add" && IndexOf(links, req.link) < 0 {
      assert |links + [req.link]| != |links|;
    }
  }

  /** Adding: afterwards the link is present; a present link changes
      nothing, so adding twice is adding once; a new one goes at the end
      and only below the limit. */
  lemma EditAdd(links: seq<ContextLink>, link: ContextLink, maxLinks: nat)
    requires link.url != ""
    ensures var r := EditLinks(links, ContextRequest("add", link), maxLinks);
            (link in links ==> r == Ok((links, false))) &&
            (link !in links && |links| >= maxLinks ==> r == Err("maximum context links already present")) &&
            (link !in links && |links| < maxLinks ==> r == Ok((links + [link], true))) &&
            (r.Ok? ==> link in r.value.0 && EditLinks(r.value.0, ContextRequest("add", link), maxLinks) == Ok((r.value.0, false)))
  {
    var r := EditLinks(links, ContextRequest("add", link), maxLinks);
    if r.Ok? {
      assert link in r.value.0 by {
        if link !in links {
          assert (links + [link])[|links|] == link;
        }
      }
    }
  }

  /** Removing takes out the first occurrence of the link, keeps the rest
      in order, and is a no-op for an absent link. */
  lemma EditRemove(links: seq<ContextLink>, link: ContextLink, maxLinks: nat)
    requires link.url != ""
    ensures var r := EditLinks(links, ContextRequest("remove", link), maxLinks);
            r.Ok? &&
            (link !in links ==> r.value == (links, false)) &&
            (link in links ==>
               var i := IndexOf(links, link);
               r.value == (links[..i] + links[i + 1..], true) &&
               multiset(r.value.0) + multiset{link} == multiset(links))
  {
    if link in links {
      TmemesUtils.WithoutIs(links, IndexOf(links, link));
    }
  }

  /** Clearing empties the list, with or without a URL, and needs a
      write-back only when there was something to clear. */
  lemma EditClear(links: seq<ContextLink>, link: ContextLink, maxLinks: nat)
    ensures EditLinks(links, ContextRequest("clear", link), maxLinks) == Ok(([], links != []))
  {
  }

  /** Other actions, and a missing URL for anything but "clear", are
      refused. */
  lemma EditRefused(links: seq<ContextLink>, req: ContextRequest, maxLinks: nat)
    ensures req.action != "clear" && req.link.url == "" ==> EditLinks(links, req, maxLinks) == Err("missing context URL")
    ensures req.action !in {"add", "remove", "clear"} && req.link.url != "" ==>
              EditLinks(links, req, maxLinks) == Err("invalid action: " + req.action)
  {
  }

  /** Distinct links within the limit stay distinct and within the limit. */
  lemma EditKeepsInvariant(links: seq<ContextLink>, req: ContextRequest, maxLinks: nat)
    requires |links| <= maxLinks
    requires forall i, j :: 0 <= i < j < |links| ==> links[i] != links[j]
    requires EditLinks(links, req, maxLinks).Ok?
    ensures var l := EditLinks(links, req, maxLinks).value.0;
            |l| <= maxLinks && forall i, j :: 0 <= i < j < |l| ==> l[i] != l[j]
  {
    var l := EditLinks(links, req, maxLinks).value.0;
    if req.action == "remove" && IndexOf(links, req.link) >= 0 {
      var k := IndexOf(links, req.link);
      TmemesUtils.WithoutIs(links, k);
      forall i, j | 0 <= i < j < |l| ensures l[i] != l[j] {
        var i' := if i < k then i else i + 1;
        var j' := if j < k then j else j + 1;
        assert l[i] == links[i'] && l[j] == links[j'];
      }
    } else if req.action == "add" && IndexOf(links, req.link) < 0 {
      forall i, j | 0 <= i < j < |l| ensures l[i] != l[j] {
        if j == |links| {
          assert l[j] == req.link && l[i] == links[i];
        } else {
          assert l[i] == links[i] && l[j] == links[j];
        }
      }
    }
  }

  /** The macro that db.Macro hands out: the request edits it in place. */
  class MacroRef {
    var macro: Macro

    constructor (m: Macro)
      ensures macro == m
    {
      macro := m;
    }

    /** serveAPIContextPost past the ID lookup and the JSON decoding:
        the permission check, then the edit, then the write-back of the
        store (`updateErr` is its outcome), which on failure restores the
        saved links. */
    method PostContext(caller: UserID, superUser: bool, req: ContextRequest, maxLinks: nat, updateErr: Option<string>)
      returns (r: Result<Macro, string>)
      modifies this
      ensures r.Err? ==> macro == old(macro)
      ensures !MayEdit(caller, old(macro).creator, superUser) ==> r == Err("permission denied")
      ensures MayEdit(caller, old(macro).creator, superUser) ==>
                match EditLinks(old(macro).contextLink, req, maxLinks)
                case Err(e) => r == Err(e)
                case Ok((l, needs)) =>
                  if needs && updateErr.Some? then r == Err(updateErr.value)
                  else macro == old(macro).(contextLink := l) && r == Ok(macro)
    {
      if !MayEdit(caller, macro.creator, superUser) {
        return Err("permission denied");
      }
      if req.action != "clear" && req.link.url == "" {
        return Err("missing context URL");
      }
      var saved := macro.contextLink;
      var needsUpdate := false;
      if req.action == "add" {
        if IndexOf(macro.contextLink, req.link) < 0 {
          if |macro.contextLink| >= maxLinks {
            return Err("maximum context links already present");
          }
          macro := macro.(contextLink := macro.contextLink + [req.link]);
          needsUpdate := true;
        }
      } else if req.action == "remove" {
        var i := IndexOf(macro.contextLink, req.link);
        if i >= 0 {
          macro := macro.(contextLink := TmemesUtils.Without(macro.contextLink, i));
          needsUpdate := true;
        }
      } else if req.action == "clear" {
        macro := macro.(contextLink := []);
        needsUpdate := |saved| != 0;
      } else {
        return Err("invalid action: " + req.action);
      }
      if needsUpdate && updateErr.Some? {
        macro := macro.(contextLink := saved);
        return Err(updateErr.value);
      }
      r := Ok(macro);
    }
  }

  // ---------------------------------------------------------------------
  // Generating macro images

  /** The encoders generateMacro dispatches to. */
  datatype Encoder = GIF | JPEG | PNG | Unknown

  /** The encoder for a template's file extension. */
  function EncoderFor(ext: string): (e: Encoder)
    ensures e == GIF <==> ext == ".gif"
    ensures e == JPEG <==> ext == ".jpg" || ext == ".jpeg"
    ensures e == PNG <==> ext == ".png"
  {
    if ext == ".gif" then GIF
    else if ext == ".jpg" || ext == ".jpeg" then JPEG
    else if ext == ".png" then PNG
    else Unknown
  }

  lemma DottedDispatch(ext: string)
    requires ext == "gif" || ext == "jpg" || ext == "jpeg" || ext == "png"
    ensures var e := EncoderFor("." + ext); e != Unknown && (e == GIF <==> ext == "gif")
  {
  }

  /** A template stored with one of the image extensions the server
      accepts is generated by the matching encoder. */
  lemma StoredTemplateDispatch(dir: string, id: int, ext: string)
    requires ext == "gif" || ext == "jpg" || ext == "jpeg" || ext == "png"
    ensures var e := EncoderFor(Ext(Store.TemplateFile(dir, id, ext)));
            e != Unknown && (e == GIF <==> ext == "gif")
  {
    Store.TemplateFileExt(dir, id, ext);
    DottedDispatch(ext);
  }

  /** The outcomes of the steps that touch images and files: opening the
      template, decoding it, its frame count (for GIFs), creating the
      output file, encoding into it and closing it, and the digest of what
      was written. */
  datatype Env = Env(openErr: Option<string>, decodeErr: Option<string>, frames: nat,
                     createErr: Option<string>, encodeErr: Option<string>, closeErr: Option<string>,
                     sum: seq<byte>)

  /** Whether generation gets as far as creating the output file. */
  predicate OutputCreated(tp: Result<string, string>, env: Env) {
    tp.Ok? && env.openErr.None? && env.decodeErr.None? &&
    !(Ext(tp.value) == ".gif" && env.frames == 0) && env.createErr.None?
  }

  /** The error of encoding into the created file and closing it. */
  function WriteError(ext: string, env: Env): Option<string> {
    if EncoderFor(ext) == Unknown then Some("unknown extension: " + ext)
    else if env.encodeErr.Some? then env.encodeErr
    else env.closeErr
  }

  /** The error generateMacro returns, step by step, for template path
      `tp` (the store's TemplatePath). */
  function GenerateError(tp: Result<string, string>, env: Env): Option<string> {
    if tp.Err? then Some(tp.error)
    else if env.openErr.Some? then env.openErr
    else if env.decodeErr.Some? then env.decodeErr
    else if Ext(tp.value) == ".gif" && env.frames == 0 then Some("no frames in GIF")
    else if env.createErr.Some? then env.createErr
    else WriteError(Ext(tp.value), env)
  }

  /** Only a known encoder succeeds; an unknown extension is reported as
      such once the output file exists; a GIF without frames is refused
      before any file is created. */
  lemma GenerateDispatch(tp: Result<string, string>, env: Env)
    ensures GenerateError(tp, env).None? ==> OutputCreated(tp, env) && EncoderFor(Ext(tp.value)) != Unknown
    ensures OutputCreated(tp, env) && EncoderFor(Ext(tp.value)) == Unknown ==>
              GenerateError(tp, env) == Some("unknown extension: " + Ext(tp.value))
    ensures tp.Ok? && Ext(tp.value) == ".gif" && env.frames == 0 ==> !OutputCreated(tp, env) && GenerateError(tp, env).Some?
    ensures OutputCreated(tp, env) ==> GenerateError(tp, env) == WriteError(Ext(tp.value), env)
  {
  }

  /** The ETag recorded for a path, if any. */
  function EtagOf(etags: map<string, string>, p: string): Option<string> {
    if p in etags then Some(etags[p]) else None
  }

  /** What a request for /content/macro/<id>[.ext] names: the ID and the
      requested extension, or the 400 message. */
  function ParseContentPath(path: string): Result<(int, string), string> {
    var id := TrimPrefix(path, "/content/macro/");
    if id == "" then Err("missing id")
    else
      var ext := Ext(id);
      match Atoi(TrimSuffix(id, ext))
      case Err(_) => Err("invalid id")
      case Ok(n) => Ok((n, ext))
  }

  lemma ItoaNoDot(n: int)
    ensures forall k :: 0 <= k < |Itoa(n)| ==> Itoa(n)[k] != '.' && Itoa(n)[k] != '/'
  {
    var s := Itoa(n);
    if n < 0 {
      forall k | 1 <= k < |s| ensures s[k] != '.' && s[k] != '/' {
        assert s[k] == NatToDecimal(-n)[k - 1];
      }
    }
  }

  /** The extension of a printed ID followed by `ext` is `ext`. */
  lemma ExtAfterId(id: int, ext: string)
    requires ext == "" || (ext[0] == '.' && forall k :: 1 <= k < |ext| ==> ext[k] != '.' && ext[k] != '/')
    ensures Ext(Itoa(id) + ext) == ext
  {
    if ext == "" {
      var s := Itoa(id);
      assert s + ext == s;
      ItoaNoDot(id);
    } else {
      ExtOfSuffix(Itoa(id), ext);
    }
  }

  lemma TrimSuffixOf(a: string, b: string)
    ensures TrimSuffix(a + b, b) == a
  {
    assert (a + b)[|a + b| - |b|..] == b;
    assert (a + b)[..|a + b| - |b|] == a;
  }

  lemma TrimPrefixOf(a: string, b: string)
    ensures TrimPrefix(a + b, a) == b
  {
    assert (a + b)[..|a|] == a;
    assert (a + b)[|a|..] == b;
  }

  /** The URL of a macro, with or without an extension, names that macro
      and that extension. */
  lemma ContentPathRoundTrip(id: int, ext: string)
    requires MinInt64 <= id <= MaxInt64
    requires ext == "" || (ext[0] == '.' && forall k :: 1 <= k < |ext| ==> ext[k] != '.' && ext[k] != '/')
    ensures ParseContentPath("/content/macro/" + Itoa(id) + ext) == Ok((id, ext))
  {
    var s := Itoa(id) + ext;
    assert "/content/macro/" + Itoa(id) + ext == "/content/macro/" + s;
    TrimPrefixOf("/content/macro/", s);
    ExtAfterId(id, ext);
    TrimSuffixOf(Itoa(id), ext);
    AtoiItoa(id);
  }

  /** The response of serveContentMacro. */
  datatype Response = Serve(file: string, etag: Option<string>) | Error(code: int, msg: string)

  /** The cache file a request names, with its macro, once the ID, the
      macro, its cache path and the requested extension check out; or the
      error response. */
  function Target(db: Store.DB, path: string): Result<(Macro, string), Response>
    reads db
  {
    match ParseContentPath(path)
    case Err(e) => Err(Error(400, e))
    case Ok((id, ext)) =>
      match db.Macro(id)
      case Err(e) => Err(Error(404, e))
      case Ok(m) =>
        match db.CachePath(m)
        case Err(e) => Err(Error(500, e))
        case Ok(cp) =>
          if ext != "" && !HasSuffix(cp, ext) then Err(Error(400, "wrong file extension"))
          else Ok((m, cp))
  }

  /** A request for a macro's canonical URL, with its template's extension,
      reaches the macro's cache file. */
  lemma CanonicalURLReachesCache(db: Store.DB, m: Macro)
    requires m.id in db.macros && db.macros[m.id] == m && m.templateID in db.templates
    requires MinInt64 <= m.id <= MaxInt64
    ensures var ext := Ext(db.templates[m.templateID].path);
            Target(db, "/content/macro/" + Itoa(m.id) + ext) ==
              Ok((m, Store.CachePathOf(db.dir, db.cacheSeed, m, db.templates[m.templateID])))
  {
    var t := db.templates[m.templateID];
    var ext := Ext(t.path);
    ContentPathRoundTrip(m.id, ext);
    if ext != "" {
      Store.CachePathExt(db.dir, db.cacheSeed, m, t);
    }
  }

  /** The image cache the server keeps: which files exist, and the ETags
      recorded for the files it generated. */
  class ContentCache {
    var files: set<string>
    var etags: map<string, string>

    constructor (files: set<string>)
      ensures this.files == files && etags == map[]
    {
      this.files := files;
      etags := map[];
    }

    /** The output step shared by both generators: create the file, run
        the encoder (its error `encodeErr`), close the file; then the
        deferred clean-up removes the file on any error, and on success
        records the file's ETag. */
    method WriteOutput(cachePath: string, encodeErr: Option<string>, env: Env) returns (err: Option<string>)
      modifies this`files, this`etags
      ensures env.createErr.Some? ==> err == env.createErr && files == old(files) && etags == old(etags)
      ensures env.createErr.None? ==> err == (if encodeErr.Some? then encodeErr else env.closeErr)
      ensures env.createErr.None? && err.Some? ==> files == old(files) - {cachePath} && etags == old(etags)
      ensures err.None? ==> files == old(files) + {cachePath} && etags == old(etags)[cachePath := TmemesUtils.FormatEtag(env.sum)]
    {
      if env.createErr.Some? {
        return env.createErr;
      }
      files := files + {cachePath};
      err := if encodeErr.Some? then encodeErr else env.closeErr;
      if err.Some? {
        files := files - {cachePath};
      } else {
        etags := etags[cachePath := TmemesUtils.FormatEtag(env.sum)];
      }
    }

    /** generateMacroGIF: decode all frames, refuse an empty GIF, draw on
        every frame, write the result. */
    method GenerateMacroGIF(cachePath: string, env: Env) returns (err: Option<string>)
      modifies this`files, this`etags
      ensures env.decodeErr.Some? ==> err == env.decodeErr && files == old(files) && etags == old(etags)
      ensures env.decodeErr.None? && env.frames == 0 ==> err == Some("no frames in GIF") && files == old(files) && etags == old(etags)
      ensures env.decodeErr.None? && env.frames > 0 && env.createErr.Some? ==> err == env.createErr && files == old(files) && etags == old(etags)
      ensures env.decodeErr.None? && env.frames > 0 && env.createErr.None? ==>
                err == (if env.encodeErr.Some? then env.encodeErr else env.closeErr) &&
                (err.Some? ==> files == old(files) - {cachePath} && etags == old(etags))
      ensures err.None? ==> files == old(files) + {cachePath} && etags == old(etags)[cachePath := TmemesUtils.FormatEtag(env.sum)]
    {
      if env.decodeErr.Some? {
        return env.decodeErr;
      }
      if env.frames == 0 {
        return Some("no frames in GIF");
      }
      err := WriteOutput(cachePath, env.encodeErr, env);
    }

    /** generateMacro: the template's path from the store, open it, and
        dispatch on its extension: GIFs to generateMacroGIF, the rest
        decoded, drawn and encoded by extension. */
    method GenerateMacro(db: Store.DB, m: Macro, cachePath: string, env: Env) returns (err: Option<string>)
      modifies this`files, this`etags
      ensures err == GenerateError(db.TemplatePath(m.templateID), env)
      ensures err.None? ==> files == old(files) + {cachePath} && etags == old(etags)[cachePath := TmemesUtils.FormatEtag(env.sum)]
      ensures err.Some? ==> etags == old(etags)
      ensures err.Some? && OutputCreated(db.TemplatePath(m.templateID), env) ==> files == old(files) - {cachePath}
      ensures err.Some? && !OutputCreated(db.TemplatePath(m.templateID), env) ==> files == old(files)
    {
      var tp := db.TemplatePath(m.templateID);
      if tp.Err? {
        return Some(tp.error);
      }
      if env.openErr.Some? {
        return env.openErr;
      }
      var ext := Ext(tp.value);
      if ext == ".gif" {
        err := GenerateMacroGIF(cachePath, env);
        return;
      }
      if env.decodeErr.Some? {
        return env.decodeErr;
      }
      var encodeErr: Option<string>;
      var enc := EncoderFor(ext);
      if enc == JPEG || enc == PNG {
        encodeErr := env.encodeErr;
      } else {
        encodeErr := Some("unknown extension: " + ext);
      }
      err := WriteOutput(cachePath, encodeErr, env);
    }

    /** serveContentMacro: an existing cache file is served as it is, with
        its recorded ETag if any; otherwise the macro is generated into it
        first, and a failure is a 500. */
    method ServeContentMacro(db: Store.DB, path: string, env: Env) returns (resp: Response)
      modifies this`files, this`etags
      ensures Target(db, path).Err? ==> resp == Target(db, path).error && files == old(files) && etags == old(etags)
      ensures Target(db, path).Ok? && Target(db, path).value.1 in old(files) ==>
                resp == Serve(Target(db, path).value.1, EtagOf(old(etags), Target(db, path).value.1)) &&
                files == old(files) && etags == old(etags)
      ensures Target(db, path).Ok? && Target(db, path).value.1 !in old(files) ==>
                var (m, cp) := Target(db, path).value;
                match GenerateError(db.TemplatePath(m.templateID), env)
                case Some(e) => resp == Error(500, e) && cp !in files
                case None => resp == Serve(cp, Some(TmemesUtils.FormatEtag(env.sum)))
      ensures resp.Serve? ==> resp.file in files && Target(db, path) == Ok((Target(db, path).value.0, resp.file))
    {
      var t := Target(db, path);
      if t.Err? {
        return t.error;
      }
      var (m, cachePath) := t.value;
      if cachePath in files {
        return Serve(cachePath, EtagOf(etags, cachePath));
      }
      var err := GenerateMacro(db, m, cachePath, env);
      if err.Some? {
        return Error(500, err.value);
      }
      resp := Serve(cachePath, EtagOf(etags, cachePath));
    }
  }
}
