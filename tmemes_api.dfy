/** Who becomes the creator of a new macro, and who may delete one, as
    serveAPIMacroPost and serveAPIMacroDelete decide it. The earlier
    revision of the API server (tmemes/api.go) and the later one
    (cmd/tmemes/api.go) take the same steps here, so they are modelled once.
    The earlier revision's creator filter, macro generation with the
    extension dispatch and the clean-up, and cache-hit flow are those of the
    later revision, modelled in CmdApi; its text overlay is the renderer's,
    modelled in MemedrawDraw. */
module TmemesApi {
  import opened Wrappers
  import opened GoStrings
  import opened Tmemes
  import Store
  import CmdApi
  import TmemesUI

  /** The creator serveAPIMacroPost gives a validated macro: a negative
      creator asks for an anonymous macro, which becomes -1 where the
      server allows it; any other creator is replaced by the caller. */
  function NormaliseCreator(creator: UserID, allowAnonymous: bool, caller: UserID): (r: Result<UserID, string>)
    ensures r.Err? <==> creator < 0 && !allowAnonymous
    ensures r.Err? ==> r.error == "anonymous macros not allowed"
    ensures r.Ok? ==> (r.value == -1 <==> creator < 0 || caller == -1)
    ensures r.Ok? && creator >= 0 ==> r.value == caller
  {
    if creator < 0 then (if allowAnonymous then Ok(-1) else Err("anonymous macros not allowed"))
    else Ok(caller)
  }

  /** The API and the web form decide the creator alike: the form's
      "anonymous" box is the API's negative creator. */
  lemma NormaliseAgreesWithUI(anon: bool, allowAnonymous: bool, caller: UserID)
    ensures NormaliseCreator(if anon then -1 else 0, allowAnonymous, caller) == TmemesUI.UICreator(anon, allowAnonymous, caller)
  {
  }

  /** The reply of a macro request: the macro, or an HTTP error. */
  datatype Reply = Done(m: Macro) | Refused(code: int, msg: string)

  /** serveAPIMacroPost past the access check and the JSON decoding:
      validate, normalise the creator, add the macro to the store. A macro
      that passes validation always has an overlay and a template ID, so
      the store's own checks do not fail. */
  method PostMacro(db: Store.DB, m: Macro, overlayNil: bool, parse: string -> Result<URL, string>,
                   caller: UserID, allowAnonymous: bool, now: Time) returns (r: Reply)
    requires db.Valid()
    requires overlayNil ==> m.textOverlay == []
    modifies db`macros, db`nextMacroID, db`macroRows
    ensures db.Valid()
    ensures r.Refused? ==> r.code == 400 || r.code == 403
    ensures r.Refused? ==> unchanged(db`macros, db`nextMacroID, db`macroRows)
    ensures HeaderError(m).Some? ==> r == Refused(400, HeaderError(m).value)
    ensures r.Done? <==>
              HeaderError(m).None? &&
              (forall i :: 0 <= i < |m.contextLink| ==> GoodLink(parse, m.contextLink[i])) &&
              (forall i :: 0 <= i < |m.textOverlay| ==> TextLineValidForCreate(m.textOverlay[i]).Pass?) &&
              !(m.creator < 0 && !allowAnonymous)
    ensures r.Done? ==>
              r.m.id == old(db.nextMacroID) && r.m.id !in old(db.macros) &&
              r.m.createdAt == now &&
              r.m.creator == (if m.creator < 0 then -1 else caller) &&
              r.m.templateID == m.templateID && r.m.textOverlay == m.textOverlay &&
              |r.m.contextLink| == |m.contextLink| &&
              (forall i :: 0 <= i < |m.contextLink| ==> r.m.contextLink[i] == Sanitized(parse, m.contextLink[i])) &&
              db.macros == old(db.macros)[r.m.id := r.m] &&
              db.nextMacroID == old(db.nextMacroID) + 1
  {
    var m1, valid := MacroValidForCreate(m, parse);
    if valid.Fail? {
      return Refused(400, valid.error);
    }
    var creator := NormaliseCreator(m1.creator, allowAnonymous, caller);
    if creator.Err? {
      return Refused(403, creator.error);
    }
    var m2, err := db.AddMacro(m1.(creator := creator.value), overlayNil, now);
    assert err.None?;
    r := Done(m2);
  }

  /** The macro a path "/<key>/<id>" names in the macro index, as
      getSingleFromIDInPath finds it with db.Macro; or the 400 reply. */
  function MacroInPath(macros: map<int, Macro>, path: string, key: string): Result<Macro, Reply> {
    var f := (id: int) => if id in macros then TmemesUI.Lookup(Some(macros[id]), None)
                          else TmemesUI.Lookup(None, Some(Store.NotFound("macro", id)));
    var s := TmemesUI.GetSingleFromIDInPath(path, key, f);
    if s.err.Some? then Err(Refused(400, s.err.value))
    else if !s.found || s.value.None? || s.value.value.None? then Err(Refused(400, "missing macro ID"))
    else Ok(s.value.value.value)
  }

  /** The path of a stored macro names it. */
  lemma MacroInPathRoundTrip(macros: map<int, Macro>, key: string, id: int)
    requires id in macros && MinInt64 <= id <= MaxInt64
    ensures MacroInPath(macros, "/" + key + "/" + Itoa(id), key) == Ok(macros[id])
  {
    var f := (id: int) => if id in macros then TmemesUI.Lookup(Some(macros[id]), None)
                          else TmemesUI.Lookup(None, Some(Store.NotFound("macro", id)));
    TmemesUI.GetSingleRoundTrip(key, id, f);
  }

  /** serveAPIMacroDelete past the access check: only the macro's creator
      or a superuser may delete it; the store then drops it, and `removed`
      is the cache file that goes with it. */
  method DeleteMacroRequest(db: Store.DB, path: string, caller: UserID, superUser: bool)
    returns (r: Reply, removed: Option<string>)
    requires db.Valid()
    modifies db`macros, db`macroRows
    ensures db.Valid()
    ensures MacroInPath(old(db.macros), path, "api/macro").Err? ==>
              r == MacroInPath(old(db.macros), path, "api/macro").error && unchanged(db`macros, db`macroRows)
    ensures MacroInPath(old(db.macros), path, "api/macro").Ok? ==>
              var m := MacroInPath(old(db.macros), path, "api/macro").value;
              if !CmdApi.MayEdit(caller, m.creator, superUser) then
                r == Refused(401, "permission denied") && unchanged(db`macros, db`macroRows)
              else if m.id !in old(db.macros) then
                r == Refused(500, Store.NotFound("macro", m.id)) && unchanged(db`macros, db`macroRows)
              else
                r == Done(m) && db.macros == old(db.macros) - {m.id} && db.macroRows == old(db.macroRows) - {m.id}
    ensures r.Done? ==> CmdApi.MayEdit(caller, r.m.creator, superUser)
  {
    removed := None;
    var target := MacroInPath(db.macros, path, "api/macro");
    if target.Err? {
      return target.error, None;
    }
    var m := target.value;
    if !CmdApi.MayEdit(caller, m.creator, superUser) {
      return Refused(401, "permission denied"), None;
    }
    var err;
    err, removed := db.DeleteMacro(m.id);
    if err.Some? {
      return Refused(500, err.value), None;
    }
    r := Done(m);
  }
}
