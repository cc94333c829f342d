/**
 * The file helpers: fetch, upload and delete one file over WebDAV.
 * Each is one URL expression and one request whose outcome is mapped to
 * a value; the only exception that is caught is the HTTP client's request
 * exception (a transport failure or a 4xx/5xx status).
 */
module WebDav {
  import opened Options
  import opened Strings
  import opened Transport

  /** A local file as opening it for binary reading finds it. */
  datatype LocalFile = Readable(content: Bytes) | Unopenable

  /**
   * What the upload does: it returns `True` or `False`, or the error from
   * opening the local file, which is not a request exception, propagates.
   */
  datatype UploadOutcome = Returned(ok: bool) | OpenErrorRaised

  /** The file's content on success, `None` on a request exception; the URL is used as given. */
  function GetFileContent(url: string, send: Request -> Response): (content: Option<Bytes>)
    ensures content.Some? <==> Succeeds(send(Request(GET, url, [], NoBody)))
    ensures content.Some? ==> content.value == send(Request(GET, url, [], NoBody)).content
  {
    var response := send(Request(GET, url, [], NoBody));
    if Succeeds(response) then Some(response.content) else None
  }

  /**
   * The upload target: the directory URL with every trailing `/` removed,
   * one `/`, then the remote file name. Exactly one `/` stands at the join.
   */
  function UploadUrl(dir: string, name: string): (url: string)
    ensures |name| < |url| && url[|url| - |name|..] == name
    ensures url[|url| - |name| - 1] == '/'
    ensures |url| - |name| - 1 == 0 || url[|url| - |name| - 2] != '/'
    ensures url[..|url| - |name| - 1] <= dir
    ensures forall i | |url| - |name| - 1 <= i < |dir| :: dir[i] == '/'
  {
    RStrip(dir, '/') + "/" + name
  }

  /** The PUT that uploads a file's bytes under `name` in `dir`. */
  function UploadRequest(dir: string, name: string, content: Bytes): Request
  {
    Request(PUT, UploadUrl(dir, name), [], FileBytes(content))
  }

  /**
   * Opening the file comes first: a file that cannot be opened raises and
   * nothing is sent; otherwise the result is whether the PUT succeeded.
   */
  function UploadFile(dir: string, file: LocalFile, name: string, send: Request -> Response): (r: UploadOutcome)
    ensures r.OpenErrorRaised? <==> file.Unopenable?
    ensures file.Readable? ==> (r.ok <==> Succeeds(send(Request(PUT, UploadUrl(dir, name), [], FileBytes(file.content)))))
  {
    match file
    case Unopenable => OpenErrorRaised
    case Readable(content) => Returned(Succeeds(send(UploadRequest(dir, name, content))))
  }

  /** `True` iff the DELETE of exactly `url` succeeds, `False` on a request exception. */
  function DeleteFile(url: string, send: Request -> Response): (ok: bool)
    ensures ok <==> Succeeds(send(Request(DELETE, url, [], NoBody)))
  {
    Succeeds(send(Request(DELETE, url, [], NoBody)))
  }

  // ---------------------------------------------------------------------
  // Properties of the URL join.

  /** A trailing `/` on the directory URL does not change the upload target. */
  lemma UploadUrlIgnoresTrailingSlash(dir: string, name: string)
    ensures UploadUrl(dir + "/", name) == UploadUrl(dir, name)
  {
    RStripAppend(dir, '/');
  }

  /**
   * The upload target is the plain `dir + "/" + name` (the URL the callers
   * read the file back from) exactly when `dir` does not end in `/`.
   */
  lemma UploadUrlIsPlainJoin(dir: string, name: string)
    ensures UploadUrl(dir, name) == dir + "/" + name <==> (dir == [] || dir[|dir| - 1] != '/')
  {
    if dir != [] && dir[|dir| - 1] == '/' {
      assert |RStrip(dir, '/')| < |dir|;
    }
  }

  // ---------------------------------------------------------------------
  // Round trips against an idealised file server.

  /**
   * An idealised WebDAV server over a map from resource URL to content,
   * used only to state round trips: it answers a request and gives the
   * files afterwards.
   */
  function Serve(files: map<string, Bytes>, req: Request): (Response, map<string, Bytes>)
  {
    match req.verb
    case GET =>
      if req.url in files then (Answered(200, files[req.url]), files) else (Answered(404, []), files)
    case PUT =>
      if req.body.FileBytes? then (Answered(if req.url in files then 204 else 201, []), files[req.url := req.body.bytes])
      else (Answered(415, []), files)
    case DELETE =>
      if req.url in files then (Answered(204, []), files - {req.url}) else (Answered(404, []), files)
    case REPORT => (Answered(405, []), files)
  }

  /** After an upload to `dir`, fetching `dir + "/" + name` gives the uploaded bytes back (for `dir` not ending in `/`). */
  lemma UploadThenGet(files: map<string, Bytes>, dir: string, name: string, content: Bytes)
    requires dir == [] || dir[|dir| - 1] != '/'
    ensures UploadFile(dir, Readable(content), name, q => Serve(files, q).0) == Returned(true)
    ensures var after := Serve(files, UploadRequest(dir, name, content)).1;
      GetFileContent(dir + "/" + name, q => Serve(after, q).0) == Some(content)
  {
    UploadUrlIsPlainJoin(dir, name);
  }

  /**
   * Deleting succeeds exactly when the file exists, and afterwards
   * fetching it gives `None`; deleting a missing file gives `False`.
   */
  lemma DeleteThenGet(files: map<string, Bytes>, url: string)
    ensures DeleteFile(url, q => Serve(files, q).0) <==> url in files
    ensures var after := Serve(files, Request(DELETE, url, [], NoBody)).1;
      GetFileContent(url, q => Serve(after, q).0) == None
  {
  }
}
