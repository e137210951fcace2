# img_new: upload validation, size rule and route decisions

img_new is a small Flask application that takes an uploaded png/jpg/jpeg
image, bounds its size, enhances it with a pretrained Real-ESRGAN
super-resolution model (4x) and shows the original and the enhanced image
side by side. This Dafny project models the logic the application itself
contributes, all of it in `app.py`:

- `allowed_file`: which client file names are accepted (module `Upload`,
  `upload.dfy`), together with the `rsplit(".", 1)` split, ASCII
  lower-casing, and the names `<hex>.<ext>` and `<hex>_sr.png` under which the
  upload and its result are stored;
- `limitar_tamano`: the target size of an image whose larger side exceeds
  `MAX_INPUT_SIDE` = 512 pixels (module `Resize`, `resize.dfy`);
- the decisions of the routes `index` ("/") and `resultado` ("/resultado"),
  as pure functions from an abstract request to a response and the list of
  files stored (module `Routes`, `routes.dfy`).

`wrappers.dfy` holds the `Option` type. Everything is pure, as in the source:
datatypes, functions and lemmas. There are no loops and no mutable state.

Modelling choices:

- A request to "/" is its method and `request.files` as a map from field name
  to a part carrying its file name. The query of "/resultado" is a
  `map<string, string>`, and `request.args.get` is `Routes.Arg`.
- The two `uuid.uuid4().hex` values are parameters. `Upload.IsUuidHex`
  describes them as 32 lower-case hexadecimal digits.
- `mejorar_imagen` opens the image, applies `limitar_tamano`, calls the model
  and saves the result. Its outcome is a parameter, `Done` or
  `Raised(text)`. This covers every exception that the `try` at
  app.py:104-107 turns into a 500.
- Stored files are written as paths relative to the static folder
  (`uploads/...`, `results/...`), the same form the redirect carries.
- `if file and allowed_file(...)` (app.py:90): an uploaded part is truthy
  exactly when its file name is non-empty. By that point the empty name has
  already been refused, so the `file` test is always true and is not a
  separate branch.
- `resultado` redirects when `original` or `result` is absent or empty,
  because `not original` (app.py:134) is true for `None` and for `""`.

## Model

| member | source | states |
|---|---|---|
| Upload.Lower | app.py:45 | `.lower()` on ASCII: same length, each letter A-Z mapped to a-z, every other character kept |
| Upload.LastDot | app.py:45 | the position of the last '.': absent exactly when the name has no '.', otherwise a '.' with no '.' after it |
| Upload.SplitLast | app.py:45 | `rsplit(".", 1)` splits exactly when the name contains a '.'; the name is then front + "." + back, and back contains no '.' |
| Upload.SplitLastOf | app.py:45 | any split at a '.' whose right part has no '.' is the one `rsplit(".", 1)` makes, so only the last '.' separates the extension |
| Upload.Suffix | app.py:45 | `rsplit(".", 1)[1]` exists exactly when the name has a '.'; it is then the dot-free tail that follows the last '.' |
| Upload.AllowedFile | app.py:44-45 | `allowed_file`; an accepted name contains a '.' and is at least four characters long |
| Upload.AllowedFileIff | app.py:44-45 | `allowed_file(name)` holds iff some '.' in the name is followed by a dot-free suffix whose lower-case form is png, jpg or jpeg |
| Upload.AllowedExtensionsShape | app.py:28 | each allowed extension is dot-free and already lower-case |
| Upload.LastSuffixAccepted | app.py:45 | "a.exe.png" is accepted |
| Upload.EarlierSuffixIgnored | app.py:45 | "a.png.exe" is refused |
| Upload.NoDotRejected | app.py:45 | a name with no '.' ("png", "jpeg") is refused |
| Upload.CaseIgnored | app.py:45 | "X.JPG" and "x.Png" are accepted: case is ignored |
| Upload.EmptyParts | app.py:45 | ".png" is accepted (empty stem); "photo." is refused (empty extension) |
| Upload.StoredExtension | app.py:90-91 | the extension of the stored upload is the lower-cased last suffix of the accepted name, and it is one of png, jpg, jpeg |
| Upload.UploadName | app.py:92 | `f"{hex}.{ext}"`: the stem, then one '.', then the extension |
| Upload.ResultName | app.py:101 | `f"{hex}_sr.png"`: the stem, then "_sr.png" |
| Upload.UploadNameKeepsExtension | app.py:91-92 | with a dot-free stem, the stored name `<hex>.<ext>` has ext as its last suffix and passes `allowed_file` |
| Upload.ResultNameIsPng | app.py:101 | every result name has the last suffix "png" and passes `allowed_file`, whatever the stem |
| Upload.IsUuidHex | app.py:92 | what `uuid.uuid4().hex` yields: 32 lower-case hex digits, so it contains no '.' |
| Upload.UploadNameInjective | app.py:92 | different dot-free stems or different extensions give different upload names |
| Upload.ResultNameInjective | app.py:101 | different stems give different result names |
| Resize.ScaleSide | app.py:59-60 | a scaled side is the exact floor of side * 512 / larger side (the source's float product can be one less); it is at most 512, at most the side, and strictly smaller when the side is non-zero |
| Resize.LimitSize | app.py:53-61 | dimensions are unchanged when max(w, h) <= 512; otherwise each new side is at most 512 and at most the old side |
| Resize.LimitSizeBounded | app.py:53-60 | after the rule, the larger side is at most 512 and neither side has grown |
| Resize.LimitSizeIdempotent | app.py:53-60 | applying the rule to its own result changes nothing |
| Resize.LimitSizeIsTruncatedScale | app.py:59-60 | each new side times max(w, h) is at most side * 512 and falls short of it by less than max(w, h) |
| Resize.LimitSizeShrinks | app.py:56-60 | when the rule scales, every non-empty side strictly shrinks |
| Resize.LimitSizeKeepsOrientation | app.py:59-60 | a side no longer than the other stays no longer than the other |
| Resize.LimitSizeKeepsAspect | app.py:59-60 | for non-empty sides, w' * h - h' * w lies strictly between -h and w, so the aspect ratio is kept up to truncation |
| Resize.LimitSizePositiveIff | app.py:59-60 | in exact arithmetic a new side is non-zero iff side * 512 >= max(w, h); the rule does not keep sides positive |
| Resize.ThinImageCollapses | app.py:59-60 | a 2000 x 1 image is given the size 512 x 0 |
| Routes.Index | app.py:80-123 | a 400 stores nothing; a redirect goes to `resultado` with exactly the two stored paths as `original` and `result`, under uploads/ and results/; a 500 stores exactly one file, under uploads/ (the upload; see IndexEnhancementFails); a GET shows the form and stores nothing |
| Routes.Arg | app.py:131-132 | `request.args.get(key)`: present exactly when the key is in the query, and then its value |
| Routes.Missing | app.py:134 | `not original`: a value counts as given exactly when it is present and non-empty |
| Routes.Resultado | app.py:131-141 | redirects to "/" iff `original` or `result` is absent or empty; otherwise renders the result page with both values unchanged |
| Routes.MissingImageFirst | app.py:82-83 | a POST without an `image` part gives 400 "No se envió ninguna imagen" and stores nothing, whatever else holds |
| Routes.EmptyNameSecond | app.py:87-88 | with an `image` part whose name is empty, the result is 400 "No seleccionaste ninguna imagen", whatever else holds |
| Routes.FormatThird | app.py:120-121 | a non-empty name that `allowed_file` refuses gives 400 "Formato no permitido. Usa png/jpg/jpeg." |
| Routes.IndexRejectsIff | app.py:82-121 | `index` answers 400 iff a POST has no `image` part or a name that `allowed_file` refuses (the empty name included); a 400 stores nothing |
| Routes.IndexSuccess | app.py:90-118 | an accepted upload whose enhancement finishes is stored as uploads/<hex>.<ext>, with ext the lower-cased checked suffix, and its result as results/<hex>_sr.png; the redirect carries exactly these two paths |
| Routes.IndexEnhancementFails | app.py:104-107 | when enhancement raises, the answer is a 500 carrying the exception text, and only the upload has been stored |
| Routes.StoredNamesKeepExtension | app.py:91-101 | with uuid stems, the stored upload's last suffix is the checked extension, and the stored result's last suffix is png |
| Routes.RedirectLeadsToResultPage | app.py:110-118 | following the redirect of a successful upload renders the result page with the two stored paths |
| Routes.ResultadoPassesThrough | app.py:137-141 | with both values non-empty, `resultado` shows them unchanged |

## Left out

- Flask routing and framework behaviour are not modelled: `render_template`,
  the encoding of `url_for` query strings, 405 for other methods, and the 5 MB
  `MAX_CONTENT_LENGTH` limit (app.py:14-17). Only the response a route
  returns is modelled.
- File and folder I/O is not modelled: `os.makedirs`, `file.save`,
  `Image.open(...).convert("RGB")` and `sr_image.save`. The stored files are
  recorded as a list of paths.
- The Real-ESRGAN model is a foreign call and is not modelled: device
  selection, weight download, `model.predict`. The enhancement step becomes
  the `Done | Raised(text)` input.
- `mejorar_imagen` (app.py:64-72) is modelled only through its size step
  (Resize.LimitSize) and its outcome (`Done | Raised(text)`). Opening,
  predicting and saving are the I/O and foreign calls above.
- LANCZOS resampling of pixel content is not modelled. Only the target size
  is.
- Resize.LimitSize: sizes use exact integer floor arithmetic. The source
  computes `int(w * (512 / float(max(w, h))))` in IEEE floating point, which
  can give one pixel less than the exact floor: with a larger side of 561
  the source gives 511 where the model gives 512, and a 49 x 25088 image
  gets width 0 in the source but 1 in the model. The bounds "at most 512"
  and "at most the old side", idempotence, shrinking and orientation hold
  of the float result too; the results below are exact-arithmetic only.
- Resize.ScaleSide: its floor characterisation is exact; the source's side
  can be one less.
- Resize.LimitSizeIsTruncatedScale: exact arithmetic only; the source's side
  can be one below the lower bound.
- Resize.LimitSizeKeepsAspect: exact arithmetic only; the source's
  cross-product bounds can be off by that pixel.
- Resize.LimitSizePositiveIff: only the half "non-zero side implies
  side * 512 >= max(w, h)" carries over to the source; the converse fails
  for the float product (49 x 25088 gives width 0).
- Upload.Lower: lower-cases ASCII letters only. Python's `str.lower`
  Unicode case mapping is not modelled.
- The randomness of `uuid.uuid4()` is not modelled. The hex strings are
  parameters.
- `PORT` and `app.run` are process start-up (app.py:144-147) and are not
  modelled.
