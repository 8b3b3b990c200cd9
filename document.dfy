/**
 * The document sub-application: upload validation and the
 * `/answer-questions` endpoint that decodes the upload and asks the
 * processor a comma-separated list of questions about it.
 */
module Document {
  import opened Wrappers
  import opened Strings
  import opened Response
  import opened DocumentProcessor
  import Settings

  const ContentTypePdf := "application/pdf"

  /** Bytes in one megabyte (1024 * 1024). */
  const MiB := 1048576

  /** An uploaded file: declared content type, size in bytes, raw content. */
  datatype UploadFile = UploadFile(contentType: string, size: nat, content: seq<bv8>)

  /**
   * `validate_file`: the content type must be allowed, then the size must not
   * exceed the ceiling; a valid file is returned unchanged.
   */
  function ValidateFile(file: UploadFile, allowed: seq<string>, maxSize: int): (r: Result<UploadFile, Failure>)
    ensures r.Success? <==> file.contentType in allowed && file.size <= maxSize * MiB
    ensures r.Success? ==> r.value == file
    ensures file.contentType !in allowed ==> r == Failure(HttpException(400, "invalid file type"))
    ensures file.contentType in allowed && file.size > maxSize * MiB ==>
      r == Failure(HttpException(400, "file size above limit"))
  {
    if file.contentType !in allowed then Failure(HttpException(400, "invalid file type"))
    else if file.size > maxSize * MiB then Failure(HttpException(400, "file size above limit"))
    else Success(file)
  }

  /**
   * The source compares `size / (1024 * 1024)` with the ceiling in true
   * division; since the divisor is a power of two this is the integer
   * comparison used by `ValidateFile`.
   */
  lemma SizeCheckExact(size: nat, maxSize: int)
    ensures (size as real) / (MiB as real) > maxSize as real <==> size > maxSize * MiB
  {
    var q := (size as real) / (MiB as real);
    assert q * (MiB as real) == size as real;
    assert (maxSize * MiB) as real == (maxSize as real) * (MiB as real);
    if size > maxSize * MiB {
      assert size as real > (maxSize as real) * (MiB as real);
    } else {
      assert size as real <= (maxSize as real) * (MiB as real);
    }
  }

  /** The framework's 422 detail for a required form field that is missing or empty. */
  const FieldRequiredMessage := "field required"

  /** Which decoder the endpoint ran on the upload. */
  datatype DecodePath = NotDecoded | PdfFirstPage | ImageOpen

  /**
   * `answer_questions`: validate, decode (first page of a PDF, or the image
   * itself), then answer the comma-split questions. The required `questions`
   * form field, when empty, is refused by the framework before the endpoint runs. `convertPdf` returns
   * `None` where the PDF converter raises `ValueError`; `openImage` returns
   * `None` where the image decoder raises.
   */
  method AnswerQuestions(settings: Settings.AppSettings, payload: UploadFile, questions: string,
                         convertPdf: seq<bv8> -> Option<seq<Image>>,
                         openImage: seq<bv8> -> Option<Image>,
                         pipe: (Image, string) -> seq<Record>)
    returns (r: Result<ApiResponse<seq<Record>>, Failure>, ghost path: DecodePath)
    requires settings.Valid()
    ensures questions == "" ==> r == Failure(ValidationError(FieldRequiredMessage)) && path == NotDecoded
    ensures questions != "" ==> var v := ValidateFile(payload, settings.DocumentContentTypes(), settings.DocumentMaxSize());
      && (v.Failure? ==> r == Failure(v.error) && path == NotDecoded)
      && (v.Success? && payload.contentType == ContentTypePdf ==> path == PdfFirstPage)
      && (v.Success? && payload.contentType != ContentTypePdf ==> path == ImageOpen)
    ensures path == PdfFirstPage ==>
      match convertPdf(payload.content)
      case None => r == Failure(HttpException(500, "error while processing document"))
      case Some(pages) =>
        if pages == [] then r.Failure? && r.error.UnhandledError?
        else r == Success(WithData(AnswerSpec(pages[0], Split(questions, ','), pipe)))
    ensures path == ImageOpen ==>
      match openImage(payload.content)
      case None => r.Failure? && r.error.UnhandledError?
      case Some(img) => r == Success(WithData(AnswerSpec(img, Split(questions, ','), pipe)))
    ensures r.Success? ==>
      (r.value.error.None? && r.value.data.Some? && |r.value.data.value| <= Count(questions, ',') + 1)
  {
    if questions == "" {
      return Failure(ValidationError(FieldRequiredMessage)), NotDecoded;
    }
    var checked := ValidateFile(payload, settings.DocumentContentTypes(), settings.DocumentMaxSize());
    if checked.Failure? {
      return Failure(checked.error), NotDecoded;
    }
    var img: Image;
    if payload.contentType == ContentTypePdf {
      path := PdfFirstPage;
      var imgList := convertPdf(payload.content);
      if imgList.None? {
        return Failure(HttpException(500, "error while processing document")), path;
      }
      if imgList.value == [] {
        return Failure(UnhandledError("IndexError: list index out of range")), path;
      }
      img := imgList.value[0];
    } else {
      path := ImageOpen;
      var decoded := openImage(payload.content);
      if decoded.None? {
        return Failure(UnhandledError("cannot identify image file")), path;
      }
      img := decoded.value;
    }
    var result, _ := AnswerQuestion(img, Split(questions, ','), pipe);
    r := Success(WithData(result));
  }
}
