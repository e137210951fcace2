/**
 The decisions of the two routes of app.py. `index` validates an upload,
 names the two files it stores, runs the enhancement step and redirects to
 the result page; `resultado` checks its two query parameters. File saving,
 image decoding and the model call are outside the model: what the
 enhancement step reported is an input, and the files a request stores are
 part of the outcome.
 */
module Routes {
  import opened Wrappers
  import opened Upload

  datatype HttpMethod = Get | Post

  /** An uploaded multipart part; only its client-side file name is looked at. */
  datatype FilePart = FilePart(filename: string)

  /** The parts of a request to "/" that `index` reads: its method and `request.files`. */
  datatype IndexRequest = IndexRequest(verb: HttpMethod, files: map<string, FilePart>)

  /**
   How the enhancement step (`mejorar_imagen`: open, resize, predict, save)
   ended: normally, or by raising an exception with the given text.
   */
  datatype Enhancement = Done | Raised(error: string)

  datatype Endpoint = IndexEndpoint | ResultadoEndpoint

  /** What a route hands back to the framework. */
  datatype Response =
    | IndexPage                                           // render_template("index.html")
    | ResultPage(originalPath: string, resultPath: string) // render_template("result.html", ...)
    | Redirect(target: Endpoint, query: map<string, string>)
    | BadRequest(message: string)
    | ServerError(message: string)
  {
    /** The HTTP status code of the response. */
    function Status(): nat
    {
      match this
      case IndexPage => 200
      case ResultPage(_, _) => 200
      case Redirect(_, _) => 302
      case BadRequest(_) => 400
      case ServerError(_) => 500
    }
  }

  /** The response of `index` and the files it stored, as paths relative to the static folder. */
  datatype Handled = Handled(response: Response, stored: seq<string>)

  const ImageField: string := "image"
  const NoImageMessage: string := "No se envió ninguna imagen"
  const EmptyNameMessage: string := "No seleccionaste ninguna imagen"
  const FormatMessage: string := "Formato no permitido. Usa png/jpg/jpeg."
  const EnhancementErrorPrefix: string := "Error al procesar la imagen con Real-ESRGAN: "
  const UploadsDir: string := "uploads/"
  const ResultsDir: string := "results/"

  /** `request.args.get(key)`: the query value, or `None` when the key is absent. */
  function Arg(args: map<string, string>, key: string): (r: Option<string>)
    ensures r.Some? <==> key in args
    ensures r.Some? ==> r.value == args[key]
  {
    if key in args then Some(args[key]) else None
  }

  /** Python falsiness of an optional string: absent or empty. */
  predicate Missing(v: Option<string>): (falsy: bool)
    ensures !falsy <==> v.Some? && |v.value| > 0
  {
    v.None? || v.value == ""
  }

  /** The query of the redirect from `index` to `resultado`. */
  function ResultQuery(originalRel: string, resultRel: string): map<string, string>
  {
    map["original" := originalRel, "result" := resultRel]
  }

  /**
   The route "/". A GET shows the upload form. A POST is checked in order:
   no `image` part, then an empty file name, then a name `allowed_file`
   refuses, each a 400 that stores nothing. An accepted upload is stored as
   `<uploadHex>.<ext>` under uploads/, with `ext` the lower-cased suffix
   that was checked, and its result as `<resultHex>_sr.png` under results/;
   an exception from the enhancement step gives a 500, otherwise the
   response redirects to `resultado` with both relative paths.
   */
  function Index(req: IndexRequest, uploadHex: string, resultHex: string, enhancement: Enhancement): (out: Handled)
    ensures out.response.Status() == 400 ==> out.stored == []
    ensures out.response.Redirect? ==>
      out.response.target == ResultadoEndpoint
      && out.response.query.Keys == {"original", "result"}
      && out.stored == [out.response.query["original"], out.response.query["result"]]
    ensures out.response.Redirect? ==>
      UploadsDir <= out.stored[0] && ResultsDir <= out.stored[1]
    ensures out.response.ServerError? ==> |out.stored| == 1 && UploadsDir <= out.stored[0]
    ensures req.verb == Get ==> out == Handled(IndexPage, [])
  {
    if req.verb == Get then Handled(IndexPage, [])
    else if ImageField !in req.files then Handled(BadRequest(NoImageMessage), [])
    else
      var name := req.files[ImageField].filename;
      if name == "" then Handled(BadRequest(EmptyNameMessage), [])
      else if !AllowedFile(name) then Handled(BadRequest(FormatMessage), [])
      else
        var filename := UploadName(uploadHex, StoredExtension(name));
        var resultFilename := ResultName(resultHex);
        var originalRel := UploadsDir + filename;
        var resultRel := ResultsDir + resultFilename;
        match enhancement
        case Raised(e) => Handled(ServerError(EnhancementErrorPrefix + e), [originalRel])
        case Done => Handled(Redirect(ResultadoEndpoint, ResultQuery(originalRel, resultRel)), [originalRel, resultRel])
  }

  /**
   The route "/resultado": back to "/" when `original` or `result` is
   absent or empty, otherwise the result page showing both values as given.
   */
  function Resultado(args: map<string, string>): (r: Response)
    ensures r.Redirect? <==> Missing(Arg(args, "original")) || Missing(Arg(args, "result"))
    ensures r.Redirect? ==> r == Redirect(IndexEndpoint, map[])
    ensures r.ResultPage? ==>
      "original" in args && "result" in args
      && r.originalPath == args["original"] && r.resultPath == args["result"]
    ensures r.Redirect? || r.ResultPage?
  {
    var original := Arg(args, "original");
    var result := Arg(args, "result");
    if Missing(original) || Missing(result) then Redirect(IndexEndpoint, map[])
    else ResultPage(original.value, result.value)
  }

  // ----------------------------------------------------------------------
  // Properties
  // ----------------------------------------------------------------------

  /** A POST without an `image` part is refused before anything else is looked at. */
  lemma MissingImageFirst(req: IndexRequest, uploadHex: string, resultHex: string, enhancement: Enhancement)
    requires req.verb == Post && ImageField !in req.files
    ensures Index(req, uploadHex, resultHex, enhancement) == Handled(BadRequest(NoImageMessage), [])
  {
  }

  /** With an `image` part present, an empty file name is refused next. */
  lemma EmptyNameSecond(req: IndexRequest, uploadHex: string, resultHex: string, enhancement: Enhancement)
    requires req.verb == Post && ImageField in req.files && req.files[ImageField].filename == ""
    ensures Index(req, uploadHex, resultHex, enhancement) == Handled(BadRequest(EmptyNameMessage), [])
  {
  }

  /** A non-empty name that `allowed_file` refuses is the third and last 400. */
  lemma FormatThird(req: IndexRequest, uploadHex: string, resultHex: string, enhancement: Enhancement)
    requires req.verb == Post && ImageField in req.files
    requires req.files[ImageField].filename != "" && !AllowedFile(req.files[ImageField].filename)
    ensures Index(req, uploadHex, resultHex, enhancement) == Handled(BadRequest(FormatMessage), [])
  {
  }

  /**
   `index` answers 400 exactly when a POST has no `image` part, an empty
   file name, or a name `allowed_file` refuses; a 400 stores no file.
   */
  lemma IndexRejectsIff(req: IndexRequest, uploadHex: string, resultHex: string, enhancement: Enhancement)
    ensures Index(req, uploadHex, resultHex, enhancement).response.Status() == 400 <==>
      req.verb == Post
      && (ImageField !in req.files || !AllowedFile(req.files[ImageField].filename))
    ensures Index(req, uploadHex, resultHex, enhancement).response.Status() == 400 ==>
      Index(req, uploadHex, resultHex, enhancement).stored == []
  {
    if req.verb == Post && ImageField in req.files && req.files[ImageField].filename == "" {
      assert !AllowedFile(req.files[ImageField].filename);
    }
  }

  /**
   An accepted upload whose enhancement finishes is stored as
   uploads/<uploadHex>.<ext>, where ext is the lower-cased last suffix of
   the client's name and one of png, jpg, jpeg, and its result as
   results/<resultHex>_sr.png; the redirect to `resultado` carries exactly
   these two paths and they are the two files stored.
   */
  lemma IndexSuccess(req: IndexRequest, uploadHex: string, resultHex: string)
    requires req.verb == Post && ImageField in req.files
    requires AllowedFile(req.files[ImageField].filename)
    ensures
      var name := req.files[ImageField].filename;
      var ext := Lower(Suffix(name).value);
      var originalRel := "uploads/" + uploadHex + "." + ext;
      var resultRel := "results/" + resultHex + "_sr.png";
      && ext in AllowedExtensions
      && Index(req, uploadHex, resultHex, Done)
         == Handled(Redirect(ResultadoEndpoint, map["original" := originalRel, "result" := resultRel]),
                    [originalRel, resultRel])
  {
    var name := req.files[ImageField].filename;
    assert name != "";
    var ext := StoredExtension(name);
    assert UploadsDir + UploadName(uploadHex, ext) == "uploads/" + uploadHex + "." + ext;
    assert ResultsDir + ResultName(resultHex) == "results/" + resultHex + "_sr.png";
  }

  /**
   When the enhancement step raises, an accepted upload has already been
   stored, no result is, and the 500 message carries the exception text.
   */
  lemma IndexEnhancementFails(req: IndexRequest, uploadHex: string, resultHex: string, error: string)
    requires req.verb == Post && ImageField in req.files
    requires AllowedFile(req.files[ImageField].filename)
    ensures Index(req, uploadHex, resultHex, Raised(error)).response == ServerError(EnhancementErrorPrefix + error)
    ensures Index(req, uploadHex, resultHex, Raised(error)).stored
            == [UploadsDir + UploadName(uploadHex, StoredExtension(req.files[ImageField].filename))]
  {
    var name := req.files[ImageField].filename;
    assert name != "";
    var originalRel := UploadsDir + UploadName(uploadHex, StoredExtension(name));
    assert Index(req, uploadHex, resultHex, Raised(error))
           == Handled(ServerError(EnhancementErrorPrefix + error), [originalRel]);
  }

  /**
   With uuid stems, the stored upload is itself an accepted name whose last
   suffix is the stored extension, and the stored result is an accepted png
   name: the files the model reopens carry the extension that was checked.
   */
  lemma StoredNamesKeepExtension(name: string, uploadHex: string, resultHex: string)
    requires AllowedFile(name)
    requires IsUuidHex(uploadHex)
    ensures Suffix(UploadName(uploadHex, StoredExtension(name))) == Some(Lower(Suffix(name).value))
    ensures AllowedFile(UploadName(uploadHex, StoredExtension(name)))
    ensures Suffix(ResultName(resultHex)) == Some("png")
  {
    UploadNameKeepsExtension(uploadHex, StoredExtension(name));
    ResultNameIsPng(resultHex);
  }

  /**
   Following the redirect of a successful upload renders the result page
   with exactly the two stored paths.
   */
  lemma RedirectLeadsToResultPage(req: IndexRequest, uploadHex: string, resultHex: string)
    requires req.verb == Post && ImageField in req.files
    requires AllowedFile(req.files[ImageField].filename)
    ensures
      var out := Index(req, uploadHex, resultHex, Done);
      out.response.Redirect?
      && Resultado(out.response.query) == ResultPage(out.stored[0], out.stored[1])
  {
    IndexSuccess(req, uploadHex, resultHex);
  }

  /** `resultado` with both values present and non-empty shows them unchanged. */
  lemma ResultadoPassesThrough(original: string, result: string)
    requires original != "" && result != ""
    ensures Resultado(ResultQuery(original, result)) == ResultPage(original, result)
  {
  }
}
