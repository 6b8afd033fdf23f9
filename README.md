# amuse — a verified model of the score downloader

`amuse.py` downloads one score from a sheet-music site. It reads a score URL
and takes the score id from everything after its last `/`, a query string
or fragment included. It fetches the score's page
and reads two things off it with regular expressions: the title and the page
count. It then picks an output folder. Next it downloads the audio (`mp3`),
the MIDI file (`midi`) and one SVG image per page (`img`). Every one of these
downloads goes through a signed API request. The signature is four hex digits
of an MD5 digest. Finally the script merges the images into `{name}.pdf` and
deletes them.

This project models that core in Dafny, one module per concern:

- `Optional` (`optional.dfy`): the `Option` datatype.
- `Formats` (`formats.dfy`): the `EXTS` table that maps each format to its
  file extension.
- `Strings` (`strings.dfy`): the parts of Python's `str` the script relies
  on, namely `str(n)`, `int(s)`, `strip()` and `split(sep)`.
- `Utf8` (`utf8.dfy`): `bytearray(s, "utf-8")`, together with its decoder.
- `Signature` (`signature.dfy`): `generateAuth`. MD5 is a parameter,
  `md5: seq<Byte> -> Digest`, with a 16-byte result. Both `hexdigest()` and
  the `[0:4]` slice are modelled exactly.
- `Paths` (`paths.dfy`): the default folder, `chooseFolder`, the file path
  built in `downloadPart`, and the PDF path.
- `Metadata` (`metadata.dfy`): the score id and the two regular expressions.
  Each expression is modelled as a hand-written scanner plus a leftmost
  search, and is proved equal to a declarative reading of its pattern.
- `Pipeline` (`pipeline.dfy`): `downloadPart` as a request plus a path, the
  page loop as a method with loop invariants, and `main` from the URL to the
  PDF path.

Properties proved:

- The signature is 4 lower-case hex digits: the first two digest bytes.
- For the three formats of `EXTS`, the bytes handed to MD5 determine the id,
  the format and the section. So no two requests of a run hash the same
  input.
- Both `int(str(n)) == n` and the UTF-8 round trip hold, and so does the hex
  round trip.
- The section can be read back from a part's file name. So page images never
  share a file, and none of them coincides with the audio, the MIDI file or
  the PDF.
- Each extractor returns a result exactly when the pattern matches somewhere
  in the page, and that result is the leftmost match. The two quote forms of
  the page-count markup give the same count.
- A run produces `pages` image files in section order, the requests in the
  order the script sends them, and the PDF path.

## Model

| member | source | states |
|---|---|---|
| Formats.ExtensionsDistinct | amuse.py:18-22 | the table knows exactly `mp3`, `midi` and `img`, no two formats share an extension, and none is saved as `pdf` |
| Strings.DigitChar | amuse.py:32 | a digit value becomes a decimal digit character |
| Strings.DigitValue | amuse.py:98 | a digit character has a value below 10 and maps back to the same character |
| Strings.Decimal | amuse.py:32 | `str(n)` is a non-empty digit string that starts with `0` only for `n == 0`, where it is `"0"` |
| Strings.DecimalValue | amuse.py:98 | `int(s)` of a digit string is zero exactly when every digit is `0` |
| Strings.DecimalRoundTrip | amuse.py:98 | `int(str(n)) == n` |
| Strings.DecimalInjective | amuse.py:32 | different numbers have different decimal strings |
| Strings.LeadingSpace | amuse.py:44 | the length of the whitespace run that starts the string: all of it is whitespace and the character after it is not |
| Strings.TrailingSpace | amuse.py:44 | the length of the whitespace run that ends the string: all of it is whitespace and the character before it is not |
| Strings.Strip | amuse.py:88 | `strip()` neither starts nor ends with whitespace, and it is empty exactly when the input is all whitespace |
| Strings.StripBounds | amuse.py:44 | the two cuts of `strip()` leave a part that is empty exactly when the input is all whitespace, and otherwise starts and ends with a non-space character |
| Strings.StripIsSlice | amuse.py:44 | `strip()` is the slice of the input that starts after the leading whitespace, with only whitespace before it and after it |
| Strings.StripIdempotent | amuse.py:88 | stripping twice is stripping once |
| Strings.Split | amuse.py:91 | `split(sep)` has at least one field, and no field contains the separator |
| Strings.SplitJoin | amuse.py:91 | joining the fields of a split with the separator gives back the input |
| Utf8.EncodeChar | amuse.py:33 | a character encodes to 1 to 4 bytes, a single byte exactly for ASCII, and every byte after the first is a continuation byte |
| Utf8.Encode | amuse.py:33 | the encoding of a string is at least as long as the string and at most four times as long |
| Utf8.DecodeChar | amuse.py:33 | a decoded character consumes between 1 byte and the bytes available |
| Utf8.DecodeEncodeChar | amuse.py:33 | decoding the front of an encoded character gives back that character and its length |
| Utf8.DecodeTwoBytes | amuse.py:33 | a character from U+0080 to U+07FF is read back from its two bytes, whatever follows them |
| Utf8.DecodeThreeBytes | amuse.py:33 | a character from U+0800 to U+FFFF is read back from its three bytes, whatever follows them |
| Utf8.DecodeFourBytes | amuse.py:33 | a character from U+10000 on is read back from its four bytes, whatever follows them |
| Utf8.DecodeEncode | amuse.py:33 | decoding the UTF-8 encoding of a string gives back the string |
| Utf8.EncodeInjective | amuse.py:33 | different strings have different encodings |
| Signature.HexChar | amuse.py:34 | a nibble becomes a lower-case hex digit |
| Signature.HexValue | amuse.py:34 | a lower-case hex digit has a value below 16 and maps back to the same digit |
| Signature.HexDigest | amuse.py:34 | `hexdigest()` has two lower-case hex digits per byte |
| Signature.HexRoundTrip | amuse.py:34 | reading back a hex digest gives the bytes |
| Signature.HexDigestPrefix | amuse.py:34 | the first `2k` hex digits are the hex form of the first `k` bytes |
| Signature.SignatureInput | amuse.py:32 | the hashed string starts with the id followed by the format, ends with `str(section)` followed by `)82`, and is exactly as long as those four parts together |
| Signature.GenerateAuth | amuse.py:31-34 | the signature is 4 lower-case hex digits: the hex form of the first two bytes of the MD5 digest of the UTF-8 bytes of `id + format + str(section) + ")82"` |
| Strings.TrailingDigits | amuse.py:32 | the length of the maximal digit run at the end of a string |
| Strings.TrailingDigitsAfter | amuse.py:32 | a digit run placed after a non-digit is exactly the trailing digit run |
| Signature.ParseBodySplit | amuse.py:32 | a signed string with the seed removed splits at its trailing digit run |
| Signature.ParseLetterFormat | amuse.py:32 | for `img` and `midi` the signed string parses back to its id, format and section |
| Signature.ParseMp3 | amuse.py:32 | for `mp3`, whose `3` joins the section digits, the signed string parses back to its id, format and section |
| Signature.ParseSignatureInputRoundTrip | amuse.py:32 | for every format of `EXTS` the signed string parses back to its id, format and section |
| Signature.SignatureInputInjective | amuse.py:32 | two signed strings for formats of `EXTS` are equal only when id, format and section all agree |
| Signature.SignedBytesInjective | amuse.py:32-33 | the bytes handed to MD5 are equal only when id, format and section all agree |
| Paths.DefaultFolderPath | amuse.py:36-37 | the default folder starts with the current directory and `/`, ends with `/` plus the name, and is exactly that long, which pins it to `cwd/name` |
| Paths.DefaultFolderPathInjective | amuse.py:36-37 | scores with different names get different default folders |
| Paths.ChooseFolder | amuse.py:39-46 | the folder is never empty; a non-blank answer is used stripped, with no whitespace at either end; a blank answer gives the default folder |
| Paths.SectionAnnotation | amuse.py:60 | the annotation is empty exactly for section 0; otherwise it is `-` followed by digits with no leading zero whose value is the section, that is `-` and `str(section)` |
| Paths.PartPath | amuse.py:59-61 | a path exists exactly when the format is in `EXTS` (otherwise the lookup fails); it starts with `folder/name-format` and ends with `.ext`; section 0 gives exactly `folder/name-format.ext` and section `n > 0` exactly `folder/name-format-n.ext` with `n` in decimal |
| Paths.PartPathShape | amuse.py:60-61 | for any extension, the path starts with `folder/name-format`, ends with `.ext`, is exactly `folder/name-format.ext` for section 0 and exactly `folder/name-format-n.ext` for section `n > 0` |
| Paths.SectionOfPathRoundTrip | amuse.py:60-61 | the section can be read back from the file name of a part |
| Paths.PartPathInjective | amuse.py:60-61 | different sections of one format are saved to different files |
| Paths.PdfPath | amuse.py:122 | the PDF path starts with `folder/name`, ends with `.pdf`, and is exactly that long, which pins it to `folder/name.pdf` |
| Paths.PdfPathInjective | amuse.py:122 | scores with different names in one folder get different PDF files |
| Paths.OutputPathsDistinct | amuse.py:107-124 | the audio, the MIDI file, any page image and the PDF are pairwise different files, so the clean-up after the merge removes only page images |
| Metadata.ScoreId | amuse.py:91 | the id contains no `/`, ends the URL, and is preceded by a `/` when the URL has one; it is the whole URL when the URL has none |
| Metadata.Search | amuse.py:97-98 | `re.search` for a pattern given by its match at the front: the result is the leftmost position from which the pattern matches, with its group, and no earlier position matches; no result means no position matches |
| Metadata.QuoteFreeRun | amuse.py:16 | the longest prefix without `"`: it ends at the end of the input or just before a `"` |
| Metadata.TitleAt | amuse.py:16 | a title matched at the front of a string is non-empty and has no `"` |
| Metadata.TitleAtIff | amuse.py:16 | the title scanner returns a group exactly when the title pattern matches at the front with that group |
| Metadata.ExtractTitle | amuse.py:97 | the title is non-empty, has no `"` and is the group of the leftmost match: no earlier position matches; it fails exactly when the pattern matches nowhere in the page |
| Strings.LeadingDigits | amuse.py:15 | the maximal digit run at the front of a string |
| Strings.LeadingDigitsStop | amuse.py:15 | a digit run stops at the first non-digit, whatever follows |
| Strings.LeadingDigitsIff | amuse.py:15 | a prefix is the leading digit run exactly when it is all digits and maximal |
| Metadata.DigitsAfter | amuse.py:15 | the group after a literal is a non-empty run of digits |
| Metadata.DigitsAfterIff | amuse.py:15 | the group after a literal is exactly the maximal non-empty digit run that follows it |
| Metadata.PagesAt | amuse.py:15 | a page count matched at the front of a string is a non-empty run of digits |
| Metadata.PagesAtIff | amuse.py:15 | the page scanner returns a group exactly when one of the two alternatives matches at the front with that group |
| Metadata.ExtractPageCount | amuse.py:98 | the count is the value of the digit group of the leftmost match: neither alternative matches at any earlier position; it fails exactly when neither alternative matches anywhere in the page |
| Metadata.OnlyFirstCharIsP | amuse.py:15 | neither literal has a `p` after its first character |
| Metadata.PagesAtBeforeLiteral | amuse.py:15 | a match that starts before a literal cannot reach into it |
| Metadata.LiteralAcross | amuse.py:15 | a literal with no inner `p`, checked before text that starts with `p`, matches as it would on the preceding text alone, with the same digit run |
| Metadata.PagesAtLiteral | amuse.py:15 | at either literal, the group is the digit run that follows it |
| Metadata.PagesAtInsideLiteral | amuse.py:15 | no match starts strictly inside a literal |
| Metadata.SearchSkip | amuse.py:97-98 | the search passes over positions where nothing matches |
| Metadata.SearchShift | amuse.py:97-98 | searching behind a fixed text finds the same groups as searching the rest on its own |
| Metadata.QuoteFormsFrom | amuse.py:98 | from any position up to the literal, both quote forms give the same search result |
| Metadata.QuoteFormsBefore | amuse.py:15 | before the literal, both quote forms match alike at every position |
| Metadata.QuoteFormsAt | amuse.py:98 | from the literal on, both quote forms give the same search result |
| Metadata.SkipLiteral | amuse.py:98 | when nothing matches at a literal, the search goes on as a search of the text after it |
| Metadata.PageCountQuoteForms | amuse.py:15 | `pages&quot;:` and `pages":` in the same markup give the same page count, or both fail |
| Metadata.TitleExample | amuse.py:97 | a page that starts with the title tag of `My Song` yields the title `My Song` |
| Metadata.PageCountExample | amuse.py:98 | `pages":12,` yields 12 pages |
| Metadata.EscapedPageCountExample | amuse.py:98 | `pages&quot;:12,` yields 12 pages |
| Pipeline.DownloadPart | amuse.py:53-63 | a download exists exactly when the format is in `EXTS`; its path is the part path; its request is the one `RequestFor` builds, carrying the id, the section and the format, and its authorization is the 4-hex-digit signature |
| Pipeline.DownloadImages | amuse.py:114-118 | the page loop: exactly `pages` images and requests, image `i` is the `img` file of section `i`, request `i` is the signed request for section `i`, and the images are pairwise distinct |
| Pipeline.ImagePathsDistinct | amuse.py:114-118 | the page images saved for sections `0, 1, ...` are pairwise distinct files |
| Pipeline.ImagesApart | amuse.py:107-122 | no page image is the audio file, the MIDI file or the PDF |
| Pipeline.RunRequestsSignDistinct | amuse.py:106-118 | the audio, MIDI and page requests of a run sign pairwise different byte strings |
| Pipeline.DownloadScore | amuse.py:106-122 | the audio, then the MIDI file, then every page in order, then the PDF path; all files are distinct and no two requests sign the same input |
| Pipeline.RunScore | amuse.py:83-124 | a run fails exactly when the title or the page count is missing; otherwise the id is the last URL field (it has no `/`), the name is the title, the folder is the chosen one, and the run downloads as `DownloadScore` states |

## Left out

- Network I/O: the HTTP session, the API call with its JSON answer, and the
  retrieval of the payload (amuse.py:57-58, 62, 94-96). Each download is
  modelled as the request it sends plus the path it returns. The page text
  is a parameter.
- MD5 itself (amuse.py:33): it is a function parameter that returns 16
  bytes. The hex encoding and the slice taken from it are modelled.
- The SVG-to-PDF conversion and merge (`mergeSVGsIntoPDF`, amuse.py:65-73).
  These are third-party rendering libraries. Only the PDF path is modelled.
- File-system effects: `ensureFolderExists`, the removal of the images in
  `cleanSVGs`, and `os.getcwd` (amuse.py:48-51, 75-77, 37). The current
  directory is a parameter. `Paths.OutputPathsDistinct` states why the
  removal touches only page images.
- Console prompts, progress messages, and the `KeyboardInterrupt` handling
  (amuse.py:24-29, 41-45, 84-89, 100-101, 127-132). The answers to the two
  prompts are parameters.
- Metadata.ExtractPageCount: `\d` is read as the ASCII digits `0`-`9`.
  Python's `re` on `str` also matches other Unicode decimal digits, which
  `int()` accepts as well. Also, `int()` raises `ValueError` on a digit run
  longer than 4300 digits (the default limit of Python 3.11 and later); the
  model gives a count for a run of any length.
- Pipeline.DownloadPart: a format missing from `EXTS` is modelled as `None`.
  The script raises `KeyError` there only after the request is sent, and it
  only ever passes formats of the table.
- Strings holding lone surrogates (U+D800 to U+DFFF). A Python `str` can
  hold them, for instance from `input()` under the `surrogateescape` error
  handler, and `bytearray(s, "utf-8")` (amuse.py:33) then raises
  `UnicodeEncodeError`. A Dafny `char` is a Unicode scalar value, so the
  model's strings cannot hold surrogates and `Utf8.Encode` never fails.
- Nothing discovers the signing seed: it is the constant `")82"`
  (amuse.py:32), and the model uses that constant. The score name is always
  the page title; no prompt changes it.
- General regular-expression semantics: only the two fixed patterns are
  modelled, each as its own scanner.
