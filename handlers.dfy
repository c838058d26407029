/**
 The two request handlers of the server, as decisions over their inputs.
 The extraction library enters as two parameters: `validateUrl`, its URL
 check, and `getInfo`, the metadata it would fetch for a URL. A reply is
 a 400 with the handler's message, the 500 its `catch` sends, or what the
 handler goes on to send.
 */
module Handlers {
  import opened Js
  import opened Formats
  import Title

  datatype Reply<T> = BadRequest(error: string) | ServerError(error: string) | Ok(body: T)

  const MissingUrl: string := "URL не указан"
  const InvalidUrl: string := "Неверный YouTube URL"
  const MissingUrlOrItag: string := "URL и itag обязательны"
  const DownloadFailed: string := "Не удалось скачать видео. Попробуйте другое качество."

  /** The part of the library's `videoDetails` and `formats` the handlers read. */
  datatype VideoDetails = VideoDetails(title: string, lengthSeconds: nat, author: string, formats: seq<RawFormat>)

  /** The JSON body of a successful `/api/video-info` reply. */
  datatype VideoInfo = VideoInfo(title: string, duration: nat, author: string, formats: seq<FormatOption>)

  /** `POST /api/video-info` with body `{url}`. */
  function VideoInfoReply(url: Option<string>, validateUrl: string -> bool, getInfo: string -> VideoDetails)
    : (r: Reply<VideoInfo>)
    ensures !Truthy(url) ==> r == BadRequest(MissingUrl)
    ensures Truthy(url) && !validateUrl(url.value) ==> r == BadRequest(InvalidUrl)
    ensures r.Ok? <==> Truthy(url) && validateUrl(url.value)
    ensures r.Ok? ==> var info := getInfo(url.value);
      && r.body.title == info.title && r.body.duration == info.lengthSeconds
      && r.body.author == info.author
      && r.body.formats == SelectFormats(info.formats)
      && UniqueQualities(r.body.formats) && SortedByQuality(r.body.formats)
  {
    if !Truthy(url) then BadRequest(MissingUrl)
    else if !validateUrl(url.value) then BadRequest(InvalidUrl)
    else
      var info := getInfo(url.value);
      Ok(VideoInfo(info.title, info.lengthSeconds, info.author, SelectFormats(info.formats)))
  }

  /**
   A missing URL is refused without asking the validator, and a refused
   request never depends on what the library would fetch.
   */
  lemma VideoInfoGuardsComeFirst(url: Option<string>, v1: string -> bool, v2: string -> bool,
                                  g1: string -> VideoDetails, g2: string -> VideoDetails)
    ensures !Truthy(url) ==> VideoInfoReply(url, v1, g1) == VideoInfoReply(url, v2, g2)
    ensures VideoInfoReply(url, v1, g1).BadRequest? ==> VideoInfoReply(url, v1, g1) == VideoInfoReply(url, v1, g2)
  {
  }

  /** What `/api/download` sends once its guards pass: headers and the stream it opens. */
  datatype Download = Download(contentDisposition: string, contentType: string, url: string, quality: string)

  /**
   `GET /api/download?url=...&itag=...`. Setting the `Content-Disposition`
   header throws when the name holds a character a header may not carry,
   and the `catch` answers 500.
   */
  function DownloadReply(url: Option<string>, itag: Option<string>, validateUrl: string -> bool,
                         getInfo: string -> VideoDetails): (r: Reply<Download>)
    ensures !Truthy(url) || !Truthy(itag) ==> r == BadRequest(MissingUrlOrItag)
    ensures Truthy(url) && Truthy(itag) && !validateUrl(url.value) ==> r == BadRequest(InvalidUrl)
    ensures (Truthy(url) && Truthy(itag) && validateUrl(url.value)
             && !Title.HeaderSafe(Title.Sanitize(getInfo(url.value).title))) ==> r == ServerError(DownloadFailed)
    ensures r.Ok? <==> (Truthy(url) && Truthy(itag) && validateUrl(url.value)
                        && Title.HeaderSafe(Title.Sanitize(getInfo(url.value).title)))
    ensures r.Ok? ==>
      && Title.QuotedFilename(r.body.contentDisposition) == Some(Title.Sanitize(getInfo(url.value).title) + ".mp4")
      && Title.HeaderSafe(r.body.contentDisposition)
      && r.body.contentType == "video/mp4"
      && r.body.url == url.value && r.body.quality == itag.value
  {
    if !Truthy(url) || !Truthy(itag) then BadRequest(MissingUrlOrItag)
    else if !validateUrl(url.value) then BadRequest(InvalidUrl)
    else
      var title := getInfo(url.value).title;
      if !Title.HeaderSafe(Title.ContentDisposition(title)) then ServerError(DownloadFailed)
      else Ok(Download(Title.ContentDisposition(title), "video/mp4", url.value, itag.value))
  }

  /** A video whose title holds an ideographic space cannot be downloaded as written. */
  lemma WideTitleFailsDownload(url: string, itag: string, validateUrl: string -> bool,
                               getInfo: string -> VideoDetails)
    requires url != "" && itag != "" && validateUrl(url) && getInfo(url).title == Title.WideTitle
    ensures DownloadReply(Some(url), Some(itag), validateUrl, getInfo) == ServerError(DownloadFailed)
  {
    Title.WideSpaceSurvives();
  }

  /** A title of header characters always gets through. */
  lemma HeaderSafeTitleDownloads(url: string, itag: string, validateUrl: string -> bool,
                                 getInfo: string -> VideoDetails)
    requires url != "" && itag != "" && validateUrl(url) && Title.HeaderSafe(getInfo(url).title)
    ensures DownloadReply(Some(url), Some(itag), validateUrl, getInfo).Ok?
  {
    Title.SanitizeHeaderSafe(getInfo(url).title);
  }

  /**
   `/api/download` with `Title.SafeSanitize` in place of the sanitizer: a
   request that passes the guards always gets its header and stream.
   */
  function SafeDownloadReply(url: Option<string>, itag: Option<string>, validateUrl: string -> bool,
                             getInfo: string -> VideoDetails): (r: Reply<Download>)
    ensures !Truthy(url) || !Truthy(itag) ==> r == BadRequest(MissingUrlOrItag)
    ensures Truthy(url) && Truthy(itag) && !validateUrl(url.value) ==> r == BadRequest(InvalidUrl)
    ensures r.Ok? <==> Truthy(url) && Truthy(itag) && validateUrl(url.value)
    ensures r.Ok? ==>
      && Title.QuotedFilename(r.body.contentDisposition) == Some(Title.SafeSanitize(getInfo(url.value).title) + ".mp4")
      && Title.HeaderSafe(r.body.contentDisposition)
      && r.body.contentType == "video/mp4"
      && r.body.url == url.value && r.body.quality == itag.value
  {
    if !Truthy(url) || !Truthy(itag) then BadRequest(MissingUrlOrItag)
    else if !validateUrl(url.value) then BadRequest(InvalidUrl)
    else
      var name := Title.SafeSanitize(getInfo(url.value).title);
      Title.DispositionNamesFile(name);
      Title.DispositionSafe(name);
      Ok(Download(Title.Disposition(name), "video/mp4", url.value, itag.value))
  }

  /** Both guards decide before anything is fetched. */
  lemma DownloadGuardsComeFirst(url: Option<string>, itag: Option<string>, v1: string -> bool,
                                v2: string -> bool, g1: string -> VideoDetails, g2: string -> VideoDetails)
    ensures !Truthy(url) || !Truthy(itag) ==> DownloadReply(url, itag, v1, g1) == DownloadReply(url, itag, v2, g2)
    ensures DownloadReply(url, itag, v1, g1).BadRequest? ==> DownloadReply(url, itag, v1, g1) == DownloadReply(url, itag, v1, g2)
  {
  }
}
