# Loking AI gateway core, modelled in Dafny

The gateway is a set of HTTP sub-applications that pass text, image and
document payloads to machine-learning pipelines. Around those pipelines sits
a small amount of logic of its own, and this project models and verifies it:

- **Settings resolution** (`app/settings.py`). A table of seven keys, each
  with a typed default. Each key is read from the environment, and the
  attribute is stored under the key with its `LK_`-style prefix stripped.
  A variable that is absent or empty keeps the default. Otherwise it is
  coerced by the declared type: bool, list, int or str.
  Module `Settings`: the class `AppSettings` holds an attribute map. Its
  constructor fills the map by a loop over the table. The pure function
  `Coerce` gives the value of one entry.
- **Upload validation and the document endpoint** (`app/document/__init__.py`).
  `validate_file` checks the content type against an allow-list, then checks
  the size against a ceiling in MB. `answer_questions` validates the upload
  first and then decodes it: a PDF is rasterised and its first page used,
  anything else is opened as an image. A PDF decode `ValueError` becomes a
  500. The questions string is split on commas. Module `Document`.
- **Document QA result assembly** (`app/document/processor.py`). The pipeline
  is called once per question. Empty outputs are skipped. From each
  non-empty output the first record is kept, with its `question` field set.
  Module `DocumentProcessor`: the method `AnswerQuestion` is proved against
  the specification function `AnswerSpec`.
- **Text router** (`app/text/__init__.py`). It holds the non-empty text
  validator, the input and output shaping of the classifier, the sentiment
  analyser, the summarizer and the labelizer, and the question-answering
  loop. Module `TextRouter`.

Supporting modules:

- `Wrappers`: `Option` and `Result`.
- `Strings`: Python's `str.split` on one character and its inverse `join`,
  ASCII `str.lower`, and a decimal `int()` with its inverse `str()`.
- `Response`: the `ApiResponse` envelope and the failure kinds.

Collaborators the source does not define become function-typed parameters:
the inference pipelines and processors, the PDF converter and the image
decoder. The environment becomes a `map<string, string>` argument. Python's
`os.getenv` gives `None` for a key missing from that map.

Three facts about the code shape the model:

- A variable set to the empty string keeps its default, like an absent one,
  because the coercion sits under `if val_env:` (app/settings.py:26).
- The allowed content types are a list, and `validate_file` tests membership
  in that list (app/document/__init__.py:44).
- A `null` or missing `text` fails pydantic's `str` type check before the
  validator runs, so the validator's `None` test (app/text/__init__.py:17) is
  never reached; only the empty string gets "text field can't be empty".

## Model

| member | source | states |
|---|---|---|
| `Strings.Split` | app/settings.py:29-30 | `s.split(sep)` gives one more piece than `sep` occurs in `s`. No piece contains `sep`. Joining the pieces with `sep` gives back `s`. |
| `Strings.SplitJoin` | app/settings.py:29-30 | Splitting a join of one or more separator-free pieces gives the pieces back. Split and join are mutual inverses. |
| `Strings.LowerIsTrue` | app/settings.py:28 | `s.lower() == "true"` holds exactly when `s` is `t`,`r`,`u`,`e`, each letter in either case. |
| `Strings.ParseInt` | app/settings.py:33 | `int(s)` succeeds exactly on an optional sign followed by 1 to 4300 decimal digits, 4300 being CPython's default `int_max_str_digits`. The sign of the result follows the sign character. |
| `Strings.ParseIntLeadingZero` | app/settings.py:33 | A leading zero does not change the parsed value of a digit run: `int("0"+s) == int(s)` while `s` has fewer than 4300 digits. Leading zeros count towards the limit, so a 4300-digit `s` with one more zero is refused. |
| `Strings.ParseIntPlus` | app/settings.py:33 | A leading `+` does not change the result for a digit run: `int("+"+s) == int(s)`. The sign does not count towards the digit limit. |
| `Strings.ParseIntMinus` | app/settings.py:33 | A digit run parses exactly when it has at most 4300 digits. A leading `-` then negates the value, and it is refused with `s` otherwise. |
| `Strings.Lower` | app/settings.py:28 | `s.lower()` keeps the length and lower-cases each character on its own. |
| `Strings.ParseIntToString` | app/settings.py:31-35 | Parsing the decimal spelling of an integer with at most 4300 digits gives that integer back. A longer spelling is refused. |
| `Settings.AttrName` | app/settings.py:24 | `key.split("_", 1)[1]` is strictly shorter than the key; its exact shape is stated by `AttrNameSplitsKey`. |
| `Settings.AttrNameSplitsKey` | app/settings.py:24 | The attribute name is what follows the first `_` of the key. The key is a `_`-free prefix, then `_`, then the name. |
| `Settings.AttrNameAfterPrefix` | app/settings.py:24 | Stripping removes a `_`-free prefix and its `_`. Later underscores stay (`LK_LOG_LEVEL` gives `LOG_LEVEL`). |
| `Settings.Coerce` | app/settings.py:26-37 | An absent or empty value keeps the default. Coercion keeps the declared type. An int setting differs from its default only when the value parses to it. |
| `Settings.CoerceBool` | app/settings.py:27-28 | A non-empty bool value gives true exactly for "true" in any letter case, and false for everything else. |
| `Settings.CoerceList` | app/settings.py:29-30 | A non-empty list value gives its comma split. The list is non-empty, its pieces hold no comma, and joined with `,` they give back the value. |
| `Settings.CoerceIntParsable` | app/settings.py:31-33 | Any value `int()` accepts, leading zeros and signs included, gives the integer it parses to. |
| `Settings.CoerceIntCanonical` | app/settings.py:31-35 | The decimal spelling of an integer with at most 4300 digits gives that integer. A longer one silently keeps the default. |
| `Settings.CoerceIntUnparsable` | app/settings.py:31-35 | A value that does not parse silently keeps the default. No error is raised. |
| `Settings.CoerceStr` | app/settings.py:36-37 | A non-empty str value is stored verbatim. |
| `Settings.ResolveAllKeys` | app/settings.py:22-39 | The attributes set are exactly the stripped names of the table keys, and no others. |
| `Settings.ResolveAllValue` | app/settings.py:22-39 | When attribute names are distinct, each entry's attribute holds that entry's coerced value. |
| `Settings.DistinctAttrNamesCount` | app/settings.py:22-39 | Distinct stripped names give exactly one attribute per table entry. |
| `Settings.TableAttrName` | app/settings.py:7-16 | Each table key is `LK_` followed by its attribute name. |
| `Settings.TableWellFormed` | app/settings.py:7-16 | Every key has a prefix. The seven attribute names are distinct. Every default has its declared type. |
| `Settings.UnsetKeepsDefault` | app/settings.py:23-26 | A key absent from the environment, or set to "", leaves its attribute equal to the table default. |
| `Settings.TableDefaults` | app/settings.py:3-15 | The default document types are the four image types followed by `application/pdf`. Both size ceilings default to 5 MB. Debug defaults to false. |
| `Settings.ResolvedTable` | app/settings.py:21-39 | After the loop there are seven attributes, one per key. Each holds its coerced value with its declared type. |
| `Settings.AppSettings.constructor` | app/settings.py:21-39 | The loop over the table leaves the attribute map equal to the ordered resolution of the table, one well-typed attribute per key. |
| `DocumentProcessor.AnswerSpec` | app/document/processor.py:7-14 | The result has at most as many records as there are questions. |
| `DocumentProcessor.AnswerQuestion` | app/document/processor.py:4-14 | The result is the filter-map specification `AnswerSpec`. "Called once per question, in input order" rests on the ghost log `calls == questions`, which the loop appends beside each call. Because `pipe` is a pure function, a repeated call would not be visible. |
| `DocumentProcessor.AnswerSpecAppend` | app/document/processor.py:8-13 | Answering two batches of questions in turn gives the two results concatenated, so result order follows question order. |
| `DocumentProcessor.AnswerSpecIndices` | app/document/processor.py:8-14 | The result lines up with a strictly increasing list of question indices. These are exactly the questions with non-empty output. Each adds its first record with `question` set. |
| `DocumentProcessor.AnswerSpecAllAnswered` | app/document/processor.py:8-13 | When every output is non-empty, the i-th record is the first record of question i's output, tagged with question i. |
| `DocumentProcessor.AnswerSpecNoneAnswered` | app/document/processor.py:10-11 | When every output is empty, the result is empty. |
| `Document.ValidateFile` | app/document/__init__.py:31-48 | A disallowed type gives 400 "invalid file type", checked before the size. A size strictly above `max * 1048576` bytes gives 400 "file size above limit", so the ceiling itself passes. Success returns the file unchanged. |
| `Document.SizeCheckExact` | app/document/__init__.py:46 | `size / (1024*1024) > max` in true division holds exactly when `size > max * 1048576`. |
| `Document.AnswerQuestions` | app/document/__init__.py:75-143 | An empty `questions` form field is refused with 422 "field required" before anything else, the file type included. Otherwise validation runs before any decode, and a failed validation is returned as is. Only `application/pdf` takes the PDF branch, which uses the first page. A converter `ValueError` gives 500 "error while processing document". The questions are `questions.split(',')`, so there are at most commas + 1 answers. |
| `TextRouter.TextMustBeValid` | app/text/__init__.py:12-19 | A null or missing text is refused by the `str` type check. The empty string is refused with "text field can't be empty". Any other text, whitespace-only included, is accepted unchanged. |
| `TextRouter.ParseTextRequests` | app/text/__init__.py:12-19 | A list body is accepted exactly when every element passes validation. The accepted texts are the given ones, in order. A refused body lists every refused element once, with its index and its own error, in body order. |
| `TextRouter.BothRefusalsReported` | app/text/__init__.py:12-19 | The body `[{"text": ""}, {"text": null}]` is refused with two errors: "text field can't be empty" at index 0 and the `str` type error at index 1. |
| `TextRouter.PayloadTexts` | app/text/__init__.py:138 | The comprehension keeps one text per request, in payload order. |
| `TextRouter.Classifier` | app/text/__init__.py:138-140 | The processor gets exactly the payload texts in payload order, unfiltered. Its result is the response data. |
| `TextRouter.SentimentAnalyzer` | app/text/__init__.py:187-189 | The processor gets exactly the payload texts in payload order, unfiltered. Its result is the response data. |
| `TextRouter.Summarizer` | app/text/__init__.py:223-225 | The response data is element 0 of the processor's result. An empty result is an unhandled error. |
| `TextRouter.QuestionAnswering` | app/text/__init__.py:278-282 | There is one entry per question, in order. Entry i holds question i and the processor's answer for the text and question i. |
| `TextRouter.Labelizer` | app/text/__init__.py:287-322 | The text and labels go to the zero-shot processor unchanged. `multi_label` is the default `True` when the parameter is absent. Otherwise it is the query string as sent (`"false"` included), because the parameter has no annotation. |

## Left out

- The inference pipelines and their model names are opaque foreign code. This covers `app/text/processors.py`, `app/image/processor.py` and the `pipeline(...)` construction in `app/document/processor.py`. They appear only as function parameters.
- PDF rasterisation, `Image.open` and base64 image decoding are foreign decoders. They are modelled only as "returned a value" or "raised". A PDF converter failure other than `ValueError` is not distinguished.
- FastAPI routing and mounting, the `desc` endpoints with their constant payloads, the image and video sub-applications, CORS and the response models' own field validation are framework glue. They are not part of this model.
- The `@cache` decorators are an external response cache and are not modelled.
- Logging setup and `LoggingMiddleware` are I/O plumbing. The `logger.error` call on the PDF branch is not modelled.
- `mask_filler` and `similarities_detector` hand their input straight to processors that are not part of this model. Apart from the `TextRequest` validation modelled by `TextMustBeValid`, there is nothing of theirs to state.
- `app/text/__init__.py` imports `ApiResponseList`, which `app/response.py` does not define. The list endpoints are modelled with `ApiResponse` holding a list.
- Scores are carried as opaque `real` values. No arithmetic is done on them, and floating point is not modelled.
- Strings.ParseInt: models an optional sign followed by ASCII decimal digits, at most 4300 of them. Python's `int()` also accepts surrounding whitespace, `_` between digits and non-ASCII digits, which are not modelled. The digit limit is fixed at CPython's default; changing it through `PYTHONINTMAXSTRDIGITS` or `sys.set_int_max_str_digits` is not modelled.
- The inference processors and pipelines are total functions in this model. An exception raised inside one is not modelled: in the source it becomes an unhandled 500 and any answers already collected are discarded.
- Document.SizeCheckExact: models the float `/` as exact real division. Python's float division is exact only while the size stays below 2^53 bytes, far above any upload.
- TextRouter.TextMustBeValid: pydantic's wording for a null or missing field ("none is not an allowed value", "field required") is represented by one message; the exact text per case is not modelled. The input is a string or null, so a JSON `text` of another type is not modelled. Pydantic v1 would coerce a number such as `5` to `"5"` and accept it.
- Strings.Lower: lower-cases ASCII letters only. This does not change the bool rule, because no other character lower-cases to one of `t`, `r`, `u`, `e`.
- DocumentProcessor.AnswerQuestion: the in-place `out[0]["question"] = question` is modelled as a value update of the freshly returned output. Nothing else holds that output, so no aliasing is lost.
- Document.AnswerQuestions: an unhandled decode failure, such as an empty page list or an undecodable image, is reported as `UnhandledError`. The model states the kind of error but not its message. The model reads the upload's bytes as a value and does not model the file stream. A missing `questions` field is treated like an empty one, and a missing upload, which the framework also refuses with 422, is not modelled.
- TextRouter.Labelizer: the processor is given the raw query string or the default `True`. How `zero_shot_classify` and the pipeline treat a string such as `"false"` is inside the processor, which is not part of this model.
