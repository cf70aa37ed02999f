/** The file names offered for download: a slug of the prompt for generated
    images, and the uploaded file's stem for edited and background-free
    images. */
module DownloadNames {

  import opened Wrappers
  import opened Text

  /** How many slug characters are kept. */
  const SlugLength: nat := 30

  /** A character a slug may hold: `[a-z0-9_]`. */
  predicate IsSlugChar(c: char)
  {
    IsAsciiLower(c) || IsAsciiDigit(c) || c == '_'
  }

  /** `replace(/[^a-z0-9]/gi, '_')`: every character outside the ASCII
      letters and digits becomes an underscore. */
  function Sanitize(prompt: string): (r: string)
    ensures |r| == |prompt|
    ensures forall k :: 0 <= k < |r| ==> (r[k] == '_' <==> !IsAsciiAlnum(prompt[k]) || prompt[k] == '_')
    ensures forall k :: 0 <= k < |r| && IsAsciiAlnum(prompt[k]) ==> r[k] == prompt[k]
  {
    seq(|prompt|, k requires 0 <= k < |prompt| => if IsAsciiAlnum(prompt[k]) then prompt[k] else '_')
  }

  /** The sanitised, lower-cased prompt cut to its first thirty characters. */
  function Slug(prompt: string): (slug: string)
    ensures |slug| == if |prompt| < SlugLength then |prompt| else SlugLength
    ensures forall k :: 0 <= k < |slug| ==> IsSlugChar(slug[k])
    ensures forall k :: 0 <= k < |slug| ==>
              (IsAsciiAlnum(prompt[k]) ==> slug[k] == LowerChar(prompt[k]))
              && (!IsAsciiAlnum(prompt[k]) ==> slug[k] == '_')
  {
    var safe := Lower(Sanitize(prompt));
    if |safe| <= SlugLength then safe else safe[..SlugLength]
  }

  /** The download name of a generated image. */
  function GeneratedFileName(prompt: string): (name: string)
    ensures name == "imagfix-" + (if prompt == "" then "generated" else Slug(prompt)) + ".png"
  {
    var slug := Slug(prompt);
    "imagfix-" + (if slug != "" then slug else "generated") + ".png"
  }

  /** A slug is its own slug. */
  lemma SlugIdempotent(prompt: string)
    ensures Slug(Slug(prompt)) == Slug(prompt)
  {
  }

  /** Only the first thirty characters of the prompt matter. */
  lemma SlugIgnoresTail(prompt: string, tail: string)
    requires |prompt| >= SlugLength
    ensures Slug(prompt + tail) == Slug(prompt)
  {
    assert forall k :: 0 <= k < SlugLength ==> (prompt + tail)[k] == prompt[k];
  }

  /** Prompts that differ only in case or in which punctuation they use get
      the same slug. */
  lemma SlugForgetsCaseAndPunctuation(p: string, q: string)
    requires |p| == |q|
    requires forall k :: 0 <= k < |p| ==>
               (IsAsciiAlnum(p[k]) <==> IsAsciiAlnum(q[k]))
               && (IsAsciiAlnum(p[k]) ==> LowerChar(p[k]) == LowerChar(q[k]))
    ensures Slug(p) == Slug(q)
  {
  }

  /** The index of the last '.', if any. */
  function LastDot(name: string): (r: Option<nat>)
    ensures r.Some? ==> r.value < |name| && name[r.value] == '.' && '.' !in name[r.value + 1..]
    ensures r.None? <==> '.' !in name
    decreases |name|
  {
    if |name| == 0 then None
    else if name[|name| - 1] == '.' then Some(|name| - 1)
    else
      var r := LastDot(name[..|name| - 1]);
      assert name == name[..|name| - 1] + [name[|name| - 1]];
      assert r.Some? ==> name[r.value + 1..] == name[..|name| - 1][r.value + 1..] + [name[|name| - 1]];
      r
  }

  /** Splitting on '.' and joining all but the last piece gives back the
      text before the last '.', and nothing without one. */
  lemma JoinAllButLast(name: string)
    ensures var parts := Split(name, '.');
            Join(parts[..|parts| - 1], '.') == match LastDot(name) case Some(i) => name[..i] case None => ""
  {
    match LastDot(name)
    case None =>
      SplitWithoutSeparator(name, '.');
    case Some(i) =>
      var a, b := name[..i], name[i + 1..];
      assert name == a + ['.'] + b;
      SplitAround(a, '.', b);
      SplitWithoutSeparator(b, '.');
      var parts := Split(name, '.');
      assert parts[..|parts| - 1] == Split(a, '.');
      JoinSplit(a, '.');
  }

  /** `name.split('.').slice(0, -1).join('.')`: everything before the last
      '.', earlier dots kept, and empty without one. */
  function Stem(name: string): (stem: string)
    ensures stem == match LastDot(name) case Some(i) => name[..i] case None => ""
  {
    JoinAllButLast(name);
    var parts := Split(name, '.');
    Join(parts[..|parts| - 1], '.')
  }

  /** `originalImageFile?.name.split('.').slice(0, -1).join('.') || 'image'`. */
  function StemOrDefault(name: Option<string>): (stem: string)
    ensures stem != ""
    ensures name.Some? && Stem(name.value) != "" ==> stem == Stem(name.value)
    ensures name.None? || Stem(name.value) == "" ==> stem == "image"
  {
    match name
    case Some(n) => if Stem(n) != "" then Stem(n) else "image"
    case None => "image"
  }

  /** The result is "image" exactly when there is no file, the name has no
      '.', its last '.' is its first character, or the text before its last
      '.' is itself "image". */
  lemma StemDefaultsExactly(name: Option<string>)
    ensures StemOrDefault(name) == "image" <==>
              name.None? || LastDot(name.value).None? || LastDot(name.value) == Some(0)
              || name.value[..LastDot(name.value).value] == "image"
  {
  }

  const EditedSuffix: string := "-edited.png"
  const NoBackgroundSuffix: string := "-no-bg.png"

  /** The download name of an edited image: the uploaded name with its last
      extension replaced, or "image" when that leaves nothing. */
  function EditedFileName(name: Option<string>): (r: string)
    ensures name.Some? && LastDot(name.value).Some? && LastDot(name.value).value > 0 ==>
              r == name.value[..LastDot(name.value).value] + EditedSuffix
    ensures name.None? || LastDot(name.value).None? || LastDot(name.value) == Some(0) ==>
              r == "image" + EditedSuffix
  {
    StemOrDefault(name) + EditedSuffix
  }

  /** The download name of an image without background, built the same way. */
  function NoBackgroundFileName(name: Option<string>): (r: string)
    ensures name.Some? && LastDot(name.value).Some? && LastDot(name.value).value > 0 ==>
              r == name.value[..LastDot(name.value).value] + NoBackgroundSuffix
    ensures name.None? || LastDot(name.value).None? || LastDot(name.value) == Some(0) ==>
              r == "image" + NoBackgroundSuffix
  {
    StemOrDefault(name) + NoBackgroundSuffix
  }

  /** Only the last extension is dropped: "a.b.png" has the stem "a.b". */
  lemma StemKeepsEarlierDots()
    ensures StemOrDefault(Some("a.b.png")) == "a.b"
  {
    var n := "a.b.png";
    assert n[3] == '.' && '.' !in n[4..];
    assert LastDot(n) == Some(3);
    assert n[..3] == "a.b";
  }

  /** A name without a dot gets the default stem. */
  lemma StemWithoutDot()
    ensures StemOrDefault(Some("photo")) == "image"
  {
    assert '.' !in "photo";
  }

  /** A name that is only an extension gets the default stem. */
  lemma StemOfBareExtension()
    ensures StemOrDefault(Some(".png")) == "image"
  {
    var n := ".png";
    assert n[0] == '.' && '.' !in n[1..];
    assert LastDot(n) == Some(0);
  }
}
