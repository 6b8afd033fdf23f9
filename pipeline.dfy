/** One run of the script (`downloadPart` and `main`), with the network,
    the console and the file system taken out: the page text, the current
    directory and the answers to the prompts are parameters, MD5 is a
    parameter, and each download is replaced by the request it sends and
    the file path it returns. */
module Pipeline {
  import opened Optional
  import opened Strings
  import opened Utf8
  import opened Formats
  import opened Signature
  import opened Paths
  import opened Metadata

  /** One call of the API: the query parameters `id`, `index`, `type` and
      the `Authorization` header. */
  datatype ApiRequest = ApiRequest(id: string, index: nat, kind: string, authorization: string)

  /** The request `downloadPart` sends for `format` and `section`. */
  function RequestFor(md5: seq<Byte> -> Digest, id: string, format: string, section: nat): ApiRequest
  {
    ApiRequest(id, section, format, GenerateAuth(md5, id, format, section))
  }

  /** What one `downloadPart` call does: the request it sends and the path
      it saves the payload to and returns. */
  datatype Download = Download(request: ApiRequest, path: string)

  /** `downloadPart(sess, id, format, folder, name, section)`. `None` is the
      failed lookup `EXTS[format]`. */
  function DownloadPart(md5: seq<Byte> -> Digest, id: string, format: string, folder: string, name: string,
                        section: nat := 0): (d: Option<Download>)
    ensures d.Some? <==> format in EXTS
    ensures d.Some? ==> Some(d.value.path) == PartPath(folder, name, format, section)
    ensures d.Some? ==> d.value.request == RequestFor(md5, id, format, section)
    ensures d.Some? ==> var q := d.value.request;
      && q.id == id && q.index == section && q.kind == format
      && |q.authorization| == 4 && AllLowerHex(q.authorization)
      && q.authorization == GenerateAuth(md5, id, format, section)
  {
    var path := PartPath(folder, name, format, section);
    if path.Some? then Some(Download(RequestFor(md5, id, format, section), path.value)) else None
  }

  /** The string a request signs. */
  function SignedBytes(q: ApiRequest): seq<Byte>
  {
    Encode(SignatureInput(q.id, q.kind, q.index))
  }

  /** The page loop of `main`: one image download per section, in section
      order. `images[i]` is the file of page `i`, the files are pairwise
      distinct, and `sent` lists the requests in the order they go out. */
  method DownloadImages(md5: seq<Byte> -> Digest, id: string, folder: string, name: string, pages: nat)
    returns (images: seq<string>, sent: seq<ApiRequest>)
    ensures |images| == pages && |sent| == pages
    ensures forall i :: 0 <= i < pages ==> Some(images[i]) == PartPath(folder, name, "img", i)
    ensures forall i :: 0 <= i < pages ==> sent[i] == RequestFor(md5, id, "img", i)
    ensures forall i, j :: 0 <= i < j < pages ==> images[i] != images[j]
  {
    images, sent := [], [];
    for section := 0 to pages
      invariant |images| == section && |sent| == section
      invariant forall i :: 0 <= i < section ==> Some(images[i]) == PartPath(folder, name, "img", i)
      invariant forall i :: 0 <= i < section ==> sent[i] == RequestFor(md5, id, "img", i)
    {
      var d := DownloadPart(md5, id, "img", folder, name, section).value;
      forall i | 0 <= i <= section
        ensures Some((images + [d.path])[i]) == PartPath(folder, name, "img", i)
        ensures (sent + [d.request])[i] == RequestFor(md5, id, "img", i)
      {
        if i < section {
          assert (images + [d.path])[i] == images[i] && (sent + [d.request])[i] == sent[i];
        }
      }
      images := images + [d.path];
      sent := sent + [d.request];
    }
    ImagePathsDistinct(folder, name, images);
  }

  /** Page images saved for sections `0, 1, ...` are pairwise distinct. */
  lemma {:induction false} ImagePathsDistinct(folder: string, name: string, images: seq<string>)
    requires forall i :: 0 <= i < |images| ==> Some(images[i]) == PartPath(folder, name, "img", i)
    ensures forall i, j :: 0 <= i < j < |images| ==> images[i] != images[j]
  {
    forall i, j | 0 <= i < j < |images|
      ensures images[i] != images[j]
    {
      if images[i] == images[j] {
        PartPathInjective(folder, name, "img", i, j);
      }
    }
  }

  /** None of the page images is the audio, the MIDI file or the PDF. */
  lemma {:induction false} ImagesApart(folder: string, name: string, images: seq<string>)
    requires forall i :: 0 <= i < |images| ==> Some(images[i]) == PartPath(folder, name, "img", i)
    ensures var mp3, midi := PartPath(folder, name, "mp3").value, PartPath(folder, name, "midi").value;
      mp3 !in images && midi !in images && PdfPath(folder, name) !in images
  {
    forall i | 0 <= i < |images|
      ensures images[i] != PartPath(folder, name, "mp3").value
      ensures images[i] != PartPath(folder, name, "midi").value
      ensures images[i] != PdfPath(folder, name)
    {
      OutputPathsDistinct(folder, name, i);
    }
  }

  /** Everything a successful run produces. */
  datatype Run = Run(
    id: string,
    name: string,
    pages: nat,
    folder: string,
    mp3: string,
    midi: string,
    images: seq<string>,
    pdf: string,
    sent: seq<ApiRequest>)

  /** The requests of a run sign pairwise different strings. */
  predicate SignsDistinctInputs(sent: seq<ApiRequest>)
  {
    forall i, j :: 0 <= i < j < |sent| ==> SignedBytes(sent[i]) != SignedBytes(sent[j])
  }

  /** The requests of a run (audio, MIDI, then page after page) sign
      pairwise different strings: no two of them differ only in a part the
      signature does not see. */
  lemma {:induction false} RunRequestsSignDistinct(md5: seq<Byte> -> Digest, id: string, pages: nat, sent: seq<ApiRequest>)
    requires |sent| == pages + 2
    requires sent[0] == RequestFor(md5, id, "mp3", 0) && sent[1] == RequestFor(md5, id, "midi", 0)
    requires forall i :: 0 <= i < pages ==> sent[i + 2] == RequestFor(md5, id, "img", i)
    ensures SignsDistinctInputs(sent)
  {
    forall i, j | 0 <= i < j < |sent|
      ensures SignedBytes(sent[i]) != SignedBytes(sent[j])
    {
      var p, q := sent[i], sent[j];
      assert p.kind in EXTS && q.kind in EXTS && (p.kind != q.kind || p.index != q.index) by {
        if i >= 2 { assert p == RequestFor(md5, id, "img", i - 2); }
        if j >= 2 { assert q == RequestFor(md5, id, "img", j - 2); }
      }
      if SignedBytes(p) == SignedBytes(q) {
        SignedBytesInjective(p.id, p.kind, p.index, q.id, q.kind, q.index);
      }
    }
  }

  /** The files and requests of a run for score `id`, saved as `name` in
      `folder`, with `pages` pages. */
  predicate IsRunOf(md5: seq<Byte> -> Digest, r: Run, id: string, name: string, pages: nat, folder: string)
  {
    && r.id == id && r.name == name && r.pages == pages && r.folder == folder
    && Some(r.mp3) == PartPath(folder, name, "mp3")
    && Some(r.midi) == PartPath(folder, name, "midi")
    && |r.images| == pages
    && (forall i :: 0 <= i < pages ==> Some(r.images[i]) == PartPath(folder, name, "img", i))
    && r.pdf == PdfPath(folder, name)
    && |r.sent| == pages + 2
    && r.sent[0] == RequestFor(md5, id, "mp3", 0)
    && r.sent[1] == RequestFor(md5, id, "midi", 0)
    && (forall i :: 0 <= i < pages ==> r.sent[i + 2] == RequestFor(md5, id, "img", i))
  }

  /** No file of a run is written twice or removed by the clean-up: the
      page images are pairwise distinct and none of them is the audio, the
      MIDI file or the PDF. */
  predicate FilesDistinct(r: Run)
  {
    && (forall i, j :: 0 <= i < j < |r.images| ==> r.images[i] != r.images[j])
    && r.mp3 !in r.images && r.midi !in r.images && r.pdf !in r.images
    && r.mp3 != r.midi && r.pdf != r.mp3 && r.pdf != r.midi
  }

  /** The downloading half of `main` (amuse.py:106-122): the audio, the MIDI
      file, then every page in order, and the path of the PDF to merge into. */
  method DownloadScore(md5: seq<Byte> -> Digest, id: string, name: string, pages: nat, folder: string)
    returns (r: Run)
    ensures IsRunOf(md5, r, id, name, pages, folder)
    ensures FilesDistinct(r)
    ensures SignsDistinctInputs(r.sent)
  {
    var mp3 := DownloadPart(md5, id, "mp3", folder, name).value;
    var midi := DownloadPart(md5, id, "midi", folder, name).value;
    var images, imageRequests := DownloadImages(md5, id, folder, name, pages);
    var pdf := PdfPath(folder, name);
    var sent := [mp3.request, midi.request] + imageRequests;
    OutputPathsDistinct(folder, name, 0);
    ImagesApart(folder, name, images);
    assert forall i :: 0 <= i < pages ==> sent[i + 2] == imageRequests[i];
    RunRequestsSignDistinct(md5, id, pages, sent);
    r := Run(id, name, pages, folder, mp3.path, midi.path, images, pdf, sent);
  }

  /** `main`, once the URL and the page text are in hand: the id is the last
      field of the stripped URL, the name and the page count come from the
      page (the run stops if either is missing), the folder from the folder
      prompt; then the score is downloaded. */
  method RunScore(md5: seq<Byte> -> Digest, cwd: string, urlAnswer: string, page: string, folderAnswer: string)
    returns (run: Option<Run>)
    ensures run.None? <==> ExtractTitle(page).None? || ExtractPageCount(page).None?
    ensures run.Some? ==>
      && '/' !in run.value.id
      && IsRunOf(md5, run.value, ScoreId(Strip(urlAnswer)), ExtractTitle(page).value, ExtractPageCount(page).value,
                 ChooseFolder(cwd, ExtractTitle(page).value, folderAnswer))
      && FilesDistinct(run.value)
      && SignsDistinctInputs(run.value.sent)
  {
    var url := Strip(urlAnswer);
    var id := ScoreId(url);
    var title := ExtractTitle(page);
    if title.None? {
      return None;
    }
    var count := ExtractPageCount(page);
    if count.None? {
      return None;
    }
    var name, pages := title.value, count.value;
    var folder := ChooseFolder(cwd, name, folderAnswer);
    var r := DownloadScore(md5, id, name, pages, folder);
    run := Some(r);
  }
}
