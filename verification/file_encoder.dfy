/** The `onload` body of `fileToBase64`, copied verbatim into each of the
    three components: the data URL a `FileReader` produced is split into its
    header and base64 payload, and the MIME type is taken from the header. */
module FileEncoder {

  import opened Wrappers
  import opened Text

  /** A file the user picked: its name, its size in bytes, and the data URL
      `readAsDataURL` yields for it. */
  datatype File = File(name: string, size: nat, dataUrl: string)

  /** The 4 MiB ceiling every component applies before accepting a file. */
  const MaxFileSize: nat := 4 * 1024 * 1024

  predicate WithinSizeLimit(file: File)
  {
    file.size <= MaxFileSize
  }

  /** The encoded image handed to the service. */
  datatype Payload = Payload(base64: string, mimeType: string)

  const InvalidFileFormat: string := "Invalid file format"

  const OctetStream: string := "application/octet-stream"

  /** A data URL as the service adapters build it. */
  function DataUrl(mimeType: string, base64: string): string
  {
    "data:" + mimeType + ";base64," + base64
  }

  /** No line terminator in `h[a..b]`: a regular-expression `.*` can cross it. */
  ghost predicate Unbroken(h: string, a: int, b: int)
    requires 0 <= a <= b <= |h|
  {
    forall m :: a <= m < b ==> !IsLineTerminator(h[m])
  }

  /** The pattern `:(.*?);` matches `h[i..j + 1]`. */
  ghost predicate MatchAt(h: string, i: int, j: int)
  {
    0 <= i < j < |h| && h[i] == ':' && h[j] == ';' && Unbroken(h, i + 1, j)
  }

  /** The first `;` at or after `k`, provided no line terminator comes first. */
  function SemicolonFrom(h: string, k: nat): (r: Option<nat>)
    requires k <= |h|
    ensures r.Some? ==> k <= r.value < |h| && h[r.value] == ';' && Unbroken(h, k, r.value)
    ensures r.Some? ==> forall m :: k <= m < r.value ==> h[m] != ';'
    ensures r.None? ==> forall j :: k <= j < |h| && h[j] == ';' ==> !Unbroken(h, k, j)
    decreases |h| - k
  {
    if k == |h| then None
    else if h[k] == ';' then Some(k)
    else if IsLineTerminator(h[k]) then None
    else SemicolonFrom(h, k + 1)
  }

  /** The match of `:(.*?);` the regular-expression engine reports, searching
      from index `i`: the leftmost start, and for it the shortest match. */
  function MatchFrom(h: string, i: nat): (r: Option<(nat, nat)>)
    requires i <= |h|
    ensures r.Some? ==> i <= r.value.0 && MatchAt(h, r.value.0, r.value.1)
    ensures r.Some? ==> forall j :: r.value.0 < j < r.value.1 ==> !MatchAt(h, r.value.0, j)
    ensures r.Some? ==> forall i', j :: i <= i' < r.value.0 ==> !MatchAt(h, i', j)
    ensures r.None? ==> forall i', j :: i <= i' ==> !MatchAt(h, i', j)
    decreases |h| - i
  {
    if i == |h| then None
    else if h[i] == ':' then
      match SemicolonFrom(h, i + 1)
      case Some(j) => Some((i, j))
      case None => MatchFrom(h, i + 1)
    else MatchFrom(h, i + 1)
  }

  /** The match a regular-expression engine reports for `:(.*?);`: no match
      starts further left, and none from the same start ends earlier. */
  ghost predicate ReportedMatch(h: string, i: int, j: int)
  {
    MatchAt(h, i, j)
    && (forall i', j' :: 0 <= i' < i ==> !MatchAt(h, i', j'))
    && (forall j' :: i < j' < j ==> !MatchAt(h, i, j'))
  }

  /** The scan finds exactly the reported match, and nothing when there is
      no match at all. */
  lemma MatchFromIsReported(h: string)
    ensures MatchFrom(h, 0).Some? ==> ReportedMatch(h, MatchFrom(h, 0).value.0, MatchFrom(h, 0).value.1)
    ensures forall i, j :: ReportedMatch(h, i, j) ==> MatchFrom(h, 0) == Some((i, j))
    ensures MatchFrom(h, 0).None? <==> forall i, j :: !MatchAt(h, i, j)
  {
    forall i, j | ReportedMatch(h, i, j) ensures MatchFrom(h, 0) == Some((i, j)) {
      var r := MatchFrom(h, 0);
      assert r.Some?;
      var (a, b) := r.value;
      assert !(a < i);
      assert !(i < a);
      assert !(j < b);
      assert !(b < j);
    }
  }

  /** `header.match(/:(.*?);/)?.[1] || 'application/octet-stream'`. */
  function MimeTypeOf(header: string): (mime: string)
    ensures mime != ""
    ensures forall i, j :: ReportedMatch(header, i, j) ==>
              mime == (if i + 1 == j then OctetStream else header[i + 1..j])
    ensures (forall i, j :: !MatchAt(header, i, j)) ==> mime == OctetStream
  {
    MatchFromIsReported(header);
    match MatchFrom(header, 0)
    case Some((i, j)) => if i + 1 == j then OctetStream else header[i + 1..j]
    case None => OctetStream
  }

  /** The `onload` body of `fileToBase64`: split on ',', reject when the first
      or second piece is missing or empty, and keep only the second piece. */
  function ParseDataUrl(result: string): (r: Result<Payload, string>)
    ensures r.Success? ==> r.value.base64 != "" && ',' !in r.value.base64
    ensures r.Success? ==> r.value.mimeType != ""
    ensures r.Failure? ==> r.error == InvalidFileFormat
  {
    var parts := Split(result, ',');
    var header := parts[0];
    if header == "" || |parts| < 2 || parts[1] == "" then Failure(InvalidFileFormat)
    else Success(Payload(parts[1], MimeTypeOf(header)))
  }

  /** The first piece of a split is empty exactly when the text is empty
      or starts with the separator. */
  lemma SplitHeadEmpty(t: string, c: char)
    ensures Split(t, c)[0] == "" <==> t == "" || t[0] == c
  {
    if |t| > 0 {
      SplitCons(t[0], t[1..], c);
      assert [t[0]] + t[1..] == t;
    }
  }

  /** No occurrence of a one-character pattern means no such character. */
  lemma NotFoundMeansAbsent(s: string, c: char)
    requires IndexOf(s, [c]).None?
    ensures c !in s
  {
    forall m | 0 <= m < |s| ensures s[m] != c {
      assert !OccursAt(s, [c], m);
      assert s[m..m + 1] == [s[m]];
    }
  }

  /** Splitting at the first separator. */
  lemma SplitAtFirst(s: string, c: char, i: nat)
    requires IndexOf(s, [c]) == Some(i)
    ensures Split(s, c) == [s[..i]] + Split(s[i + 1..], c)
  {
    assert s[i..i + 1] == [c];
    assert s == s[..i] + [c] + s[i + 1..];
    forall m | 0 <= m < i ensures s[..i][m] != c {
      assert !OccursAt(s, [c], m);
      assert s[m..m + 1] == [s[m]];
    }
    SplitWithoutSeparator(s[..i], c);
    SplitAround(s[..i], c, s[i + 1..]);
  }

  /** A data URL is rejected exactly when it has no comma, starts with one,
      or has nothing between its first comma and the next comma or the end. */
  lemma ParseRejectsExactly(s: string)
    ensures ParseDataUrl(s).Failure? <==>
              match IndexOf(s, ",")
              case None => true
              case Some(i) => i == 0 || i + 1 == |s| || s[i + 1] == ','
  {
    match IndexOf(s, ",")
    case None =>
      NotFoundMeansAbsent(s, ',');
      SplitWithoutSeparator(s, ',');
    case Some(i) =>
      SplitAtFirst(s, ',', i);
      SplitHeadEmpty(s[i + 1..], ',');
  }

  /** A data URL made of a non-empty header, a comma, a non-empty payload and
      then nothing or a further comma is accepted, with exactly that payload
      and the MIME type read from that header. */
  lemma ParseAccepts(header: string, data: string, rest: string)
    requires header != "" && ',' !in header
    requires data != "" && ',' !in data
    requires rest == "" || rest[0] == ','
    ensures ParseDataUrl(header + "," + data + rest) == Success(Payload(data, MimeTypeOf(header)))
  {
    var s := header + "," + data + rest;
    assert s == header + [','] + (data + rest);
    SplitAround(header, ',', data + rest);
    SplitWithoutSeparator(header, ',');
    if rest == "" {
      assert data + rest == data;
      SplitWithoutSeparator(data, ',');
    } else {
      assert data + rest == data + [','] + rest[1..];
      SplitAround(data, ',', rest[1..]);
      SplitWithoutSeparator(data, ',');
    }
  }

  /** The MIME type in the header of a data URL the adapters build is read
      back unchanged, and an empty one falls back to the octet-stream type. */
  lemma MimeTypeRoundTrip(mime: string)
    requires ';' !in mime
    requires forall m :: 0 <= m < |mime| ==> !IsLineTerminator(mime[m])
    ensures MimeTypeOf("data:" + mime + ";base64") == (if mime == "" then OctetStream else mime)
  {
    var h := "data:" + mime + ";base64";
    var j := 5 + |mime|;
    assert h[4] == ':' && h[j] == ';';
    assert forall m :: 5 <= m < j ==> h[m] == mime[m - 5];
    assert SemicolonFrom(h, 5) == Some(j);
    assert MatchFrom(h, 4) == Some((4, j));
    assert forall m :: 0 <= m < 4 ==> h[m] != ':';
    assert MatchFrom(h, 0) == MatchFrom(h, 4);
    assert h[5..j] == mime;
  }

  /** Parsing inverts building: a data URL built from a MIME type and a
      payload without commas, semicolons or line breaks in the type gives
      back that payload and type. */
  lemma DataUrlRoundTrip(mime: string, data: string)
    requires mime != "" && ',' !in mime && ';' !in mime
    requires forall m :: 0 <= m < |mime| ==> !IsLineTerminator(mime[m])
    requires data != "" && ',' !in data
    ensures ParseDataUrl(DataUrl(mime, data)) == Success(Payload(data, mime))
  {
    var header := "data:" + mime + ";base64";
    assert DataUrl(mime, data) == header + "," + data + "";
    assert ',' !in header by {
      assert forall m :: 0 <= m < |header| ==> header[m] == ',' ==> 5 <= m < 5 + |mime|;
      assert forall m :: 5 <= m < 5 + |mime| ==> header[m] == mime[m - 5];
    }
    ParseAccepts(header, data, "");
    MimeTypeRoundTrip(mime);
  }

  /** An empty file reads as a data URL with an empty payload and is
      rejected. */
  lemma EmptyPayloadRejected(mime: string)
    requires ',' !in mime
    ensures ParseDataUrl(DataUrl(mime, "")).Failure?
  {
    var s := DataUrl(mime, "");
    var header := "data:" + mime + ";base64";
    assert s == header + [','] + "";
    assert ',' !in header by {
      assert forall m :: 0 <= m < |header| ==> header[m] == ',' ==> 5 <= m < 5 + |mime|;
      assert forall m :: 5 <= m < 5 + |mime| ==> header[m] == mime[m - 5];
    }
    SplitAround(header, ',', "");
    SplitWithoutSeparator(header, ',');
  }
}
