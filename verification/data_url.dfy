/**
 * The `data:` URLs that `FileReader.readAsDataURL` produces and that the
 * download links carry (section 3 of RFC 2397): a header, a comma, then the
 * data. The header never contains a comma, so the data starts after the
 * first one.
 */
module DataUrl {
  import opened Wrappers

  /** `String.prototype.indexOf` for one character: the first position of
      `c` in `s`, or -1 when there is none. */
  function IndexOf(s: string, c: char): (i: int)
    ensures -1 <= i < |s|
    ensures i == -1 <==> c !in s
    ensures i >= 0 ==> s[i] == c && c !in s[..i]
    decreases |s|
  {
    if s == [] then -1
    else if s[0] == c then 0
    else
      var j := IndexOf(s[1..], c);
      assert j >= 0 ==> s[..j + 1] == [s[0]] + s[1..][..j];
      if j == -1 then -1 else j + 1
  }

  /** What the `onload` handlers keep of a data URL: the text after the first
      comma, or nothing when there is no comma. */
  function Payload(dataUrl: string): Option<string> {
    var i := IndexOf(dataUrl, ',');
    if i == -1 then None else Some(dataUrl[i + 1..])
  }

  /** The header of the download links the widgets write. */
  const DownloadHeader: string := "data:application/octet-stream;base64"

  /** The `href` of a download link for the Base64 contents `file`. */
  function Href(file: string): string {
    DownloadHeader + "," + file
  }

  /** A data URL whose header has no comma yields exactly its data. */
  lemma PayloadOfDataUrl(header: string, data: string)
    requires ',' !in header
    ensures Payload(header + "," + data) == Some(data)
  {
    var s := header + "," + data;
    assert s[..|header|] == header;
    assert s[|header|] == ',';
    assert IndexOf(s, ',') == |header|;
    assert s[|header| + 1..] == data;
  }

  /** The contents a download link carries are the file it was built from. */
  lemma HrefPayload(file: string)
    ensures Payload(Href(file)) == Some(file)
  {
    PayloadOfDataUrl(DownloadHeader, file);
  }
}
