/** createStatus and its two helpers: fill the Mastodon-shaped output
    records from the caller's options. Every default is applied with
    JavaScript's `||`, so it replaces an absent field and also a present but
    falsy one: the empty string, the number 0, `false`. The two reads of the
    wall clock (`new Date().toISOString()`) are the parameters `statusNow`
    and `accountNow`. */
module Status {
  import opened Wrappers
  import opened Strings
  import opened Decimal
  import opened Types

  /* ------------------------------------------------------------------ */
  /*  JavaScript truthiness and `||`                                    */
  /* ------------------------------------------------------------------ */

  /** A string field is truthy: present and not "". */
  predicate Given(x: Option<string>)
  {
    x.Some? && x.value != ""
  }

  /** A number field is truthy: present and not 0. */
  predicate GivenNumber(x: Option<int>)
  {
    x.Some? && x.value != 0
  }

  /** `x || d` for a string field: the default replaces an absent field and
      the empty string, and nothing else. */
  function OrString(x: Option<string>, d: string): (r: string)
    ensures x == None || x == Some("") ==> r == d
    ensures x.Some? && x.value != "" ==> r == x.value
    ensures d != "" ==> r != ""
  {
    if Given(x) then x.value else d
  }

  /** `x || null` for a string field: never a present empty string. */
  function OrNull(x: Option<string>): (r: Option<string>)
    ensures r != Some("")
    ensures r.Some? ==> r == x
    ensures x.Some? && x.value != "" ==> r == x
  {
    if Given(x) then x else None
  }

  /** `x || d` for a number field: the default replaces an absent field and 0. */
  function OrNumber(x: Option<int>, d: int): (r: int)
    ensures x == None || x == Some(0) ==> r == d
    ensures x.Some? && x.value != 0 ==> r == x.value
  {
    if GivenNumber(x) then x.value else d
  }

  /** `x || d` for a boolean field: `true` is kept, `false` and absence give `d`. */
  function OrBool(x: Option<bool>, d: bool): (r: bool)
    ensures r <==> x == Some(true) || d
  {
    if x == Some(true) then true else d
  }

  /* ------------------------------------------------------------------ */
  /*  Media attachments                                                 */
  /* ------------------------------------------------------------------ */

  /** The media type as the string the template literal writes. */
  function MediaTypeName(t: MediaType): string
  {
    match t
    case Image => "image"
    case Video => "video"
    case Gif => "gif"
  }

  /** The id given to the i-th attachment when its input has none. */
  /** Split at its first `_`, the id gives back the type name and the index. */
  function SynthesizedId(t: MediaType, i: nat): (r: string)
    ensures TakeUntil(r, '_') == MediaTypeName(t)
    ensures var k := |MediaTypeName(t)|;
      k < |r| && IsNatText(r[k + 1..]) && ParseNat(r[k + 1..]) == i
  {
    var name, digits := MediaTypeName(t), NatToString(i);
    var r := name + "_" + digits;
    assert r == name + ("_" + digits);
    TakeUntilConcat(name, '_', "_" + digits);
    assert r[|name| + 1..] == digits;
    NatRoundTrip(i);
    r
  }

  /** A string of decimal digits. */
  predicate IsNatText(s: string)
  {
    forall i :: 0 <= i < |s| ==> IsDigit(s[i])
  }

  function AttachmentTypeOf(t: MediaType): (r: AttachmentType)
    ensures r != AttachmentType.Audio
    ensures r == AttachmentType.Gifv <==> t == MediaType.Gif
    ensures r == AttachmentType.Video <==> t == MediaType.Video
    ensures r == AttachmentType.Image <==> t == MediaType.Image
  {
    match t
    case Gif => AttachmentType.Gifv
    case Video => AttachmentType.Video
    case Image => AttachmentType.Image
  }

  /** The callback of `media.map((m, i) => ...)`: attachment `i` is built
      from `m` and `i` alone. */
  function BuildMediaAttachment(m: StatusMedia, i: nat): (r: MediaAttachment)
    ensures Given(m.id) ==> r.id == m.id.value
    ensures !Given(m.id) ==> r.id == MediaTypeName(m.mediaType) + "_" + NatToString(i)
    ensures r.id != ""
    ensures r.attachmentType == AttachmentTypeOf(m.mediaType) && r.attachmentType != AttachmentType.Audio
    ensures r.url == m.url
    ensures Given(m.thumbnailUrl) ==> r.previewUrl == m.thumbnailUrl
    ensures !Given(m.thumbnailUrl) && m.mediaType == MediaType.Image ==> r.previewUrl == Some(m.url)
    ensures !Given(m.thumbnailUrl) && m.mediaType != MediaType.Image ==> r.previewUrl == None
    ensures r.description == (if Given(m.altText) then m.altText else None)
    ensures var o := r.meta.original;
      && (GivenNumber(m.width) ==> o.width == m.width.value)
      && (!GivenNumber(m.width) ==> o.width == 0)
      && (GivenNumber(m.height) ==> o.height == m.height.value)
      && (!GivenNumber(m.height) ==> o.height == 0)
      && o.size == IntToString(o.width) + "x" + IntToString(o.height)
      && (GivenNumber(m.width) && GivenNumber(m.height) ==> o.aspect == Quotient(o.width, o.height))
      && (!GivenNumber(m.width) || !GivenNumber(m.height) ==> o.aspect == One)
  {
    var width := OrNumber(m.width, 0);
    var height := OrNumber(m.height, 0);
    MediaAttachment(
      id := OrString(m.id, SynthesizedId(m.mediaType, i)),
      attachmentType := AttachmentTypeOf(m.mediaType),
      url := m.url,
      previewUrl := if Given(m.thumbnailUrl) then m.thumbnailUrl
                    else if m.mediaType == MediaType.Image then Some(m.url) else None,
      remoteUrl := Null,
      previewRemoteUrl := Null,
      textUrl := Null,
      description := OrNull(m.altText),
      meta := Meta(Original(
        width := width,
        height := height,
        size := IntToString(width) + "x" + IntToString(height),
        aspect := if GivenNumber(m.width) && GivenNumber(m.height) then Quotient(m.width.value, m.height.value) else One)))
  }

  /** buildMediaAttachments: one attachment per media item, in order. */
  function BuildMediaAttachments(media: seq<StatusMedia>): (r: seq<MediaAttachment>)
    ensures |r| == |media|
    ensures forall i :: 0 <= i < |media| ==> r[i] == BuildMediaAttachment(media[i], i)
  {
    seq(|media|, i requires 0 <= i < |media| => BuildMediaAttachment(media[i], i))
  }

  /** Attachment i depends on media[i] and i only: lists that agree at one
      position give the same attachment there, whatever else they hold. */
  lemma AttachmentDependsOnItemOnly(a: seq<StatusMedia>, b: seq<StatusMedia>, i: nat)
    requires i < |a| && i < |b| && a[i] == b[i]
    ensures BuildMediaAttachments(a)[i] == BuildMediaAttachments(b)[i]
  {
  }

  /** Appending media appends attachments: the earlier ones are unchanged. */
  lemma MediaAttachmentsOfAppend(a: seq<StatusMedia>, b: seq<StatusMedia>)
    ensures BuildMediaAttachments(a + b)[..|a|] == BuildMediaAttachments(a)
  {
    var r := BuildMediaAttachments(a + b);
    forall i | 0 <= i < |a| ensures r[..|a|][i] == BuildMediaAttachments(a)[i] {
      assert (a + b)[i] == a[i];
    }
  }

  /** Two attachments whose inputs carry no id never share the id they are
      given, whatever their types. */
  lemma SynthesizedIdsDistinct(media: seq<StatusMedia>, i: nat, j: nat)
    requires i < |media| && j < |media| && i != j
    requires !Given(media[i].id) && !Given(media[j].id)
    ensures BuildMediaAttachments(media)[i].id != BuildMediaAttachments(media)[j].id
  {
    var r := BuildMediaAttachments(media);
    assert r[i].id == SynthesizedId(media[i].mediaType, i);
    assert r[j].id == SynthesizedId(media[j].mediaType, j);
  }

  /** Example: a gif without id, size or dimensions. */
  lemma GifAttachmentExample(m: StatusMedia)
    requires m == StatusMedia(MediaType.Gif, "u", None, None, None, None, None)
    ensures var r := BuildMediaAttachment(m, 0);
      && r.id == "gif_0" && r.attachmentType == AttachmentType.Gifv
      && r.previewUrl == None
      && r.meta.original.size == "0x0" && r.meta.original.aspect == One
  {
    assert NatToString(0) == "0";
  }

  /** Text as `${n}` writes an integer: digits with an optional leading minus. */
  predicate IsIntText(s: string)
  {
    |s| >= 1 && forall i :: 0 <= i < |s| ==> IsDigit(s[i]) || (i == 0 && s[i] == '-')
  }

  /** A reader of `size`: the two integers on either side of the first `x`. */
  function ReadSize(size: string): Option<(int, int)>
  {
    var w := TakeUntil(size, 'x');
    if |w| == |size| then None
    else
      var h := size[|w| + 1..];
      if IsIntText(w) && IsIntText(h) then Some((ParseInt(w), ParseInt(h))) else None
  }

  /** `${w}x${h}` reads back as (w, h). */
  lemma ReadSizeOfText(w: int, h: int)
    ensures ReadSize(IntToString(w) + "x" + IntToString(h)) == Some((w, h))
  {
    var ws, hs := IntToString(w), IntToString(h);
    var size := ws + "x" + hs;
    assert size == ws + ("x" + hs);
    TakeUntilConcat(ws, 'x', "x" + hs);
    assert size[|ws| + 1..] == hs;
    IntRoundTrip(w);
    IntRoundTrip(h);
  }

  /** `size` carries exactly the width and height the attachment reports. */
  lemma SizeRoundTrip(m: StatusMedia, i: nat)
    ensures var o := BuildMediaAttachment(m, i).meta.original;
      ReadSize(o.size) == Some((o.width, o.height))
  {
    var o := BuildMediaAttachment(m, i).meta.original;
    ReadSizeOfText(o.width, o.height);
  }

  /* ------------------------------------------------------------------ */
  /*  Account                                                           */
  /* ------------------------------------------------------------------ */

  function VisibilityName(v: Visibility): string
  {
    match v
    case Public => "public"
    case Unlisted => "unlisted"
    case Private => "private"
    case Direct => "direct"
  }

  /** buildAccount. */
  function BuildAccount(author: StatusAuthor, accountNow: string): (r: Account)
    ensures r.id == author.id && r.displayName == author.displayName
    ensures r.username == author.username && r.acct == author.username
    ensures r.uri == r.url
    ensures Given(author.url) ==> r.url == author.url.value
    ensures !Given(author.url) ==> r.url == ""
    ensures Given(author.joinedAt) ==> r.createdAt == author.joinedAt.value
    ensures !Given(author.joinedAt) ==> r.createdAt == accountNow
    ensures r.locked <==> author.protected == Some(true)
    ensures !r.bot && r.discoverable && !r.indexable && !r.group
    ensures r.avatarStatic == r.avatar && r.avatar == (if Given(author.avatarUrl) then author.avatarUrl.value else "")
    ensures r.headerStatic == r.header && r.header == (if Given(author.bannerUrl) then author.bannerUrl.value else "")
    ensures r.followersCount == (if GivenNumber(author.followersCount) then author.followersCount.value else 0)
    ensures r.followingCount == (if GivenNumber(author.followingCount) then author.followingCount.value else 0)
    ensures r.statusesCount == (if GivenNumber(author.statusesCount) then author.statusesCount.value else 0)
    ensures !r.hideCollections && !r.noindex
    ensures r.emojis == [] && r.roles == [] && r.fields == []
  {
    Account(
      id := author.id,
      displayName := author.displayName,
      username := author.username,
      acct := author.username,
      url := OrString(author.url, ""),
      uri := OrString(author.url, ""),
      createdAt := OrString(author.joinedAt, accountNow),
      locked := OrBool(author.protected, false),
      bot := false,
      discoverable := true,
      indexable := false,
      group := false,
      avatar := OrString(author.avatarUrl, ""),
      avatarStatic := OrString(author.avatarUrl, ""),
      header := OrString(author.bannerUrl, ""),
      headerStatic := OrString(author.bannerUrl, ""),
      followersCount := OrNumber(author.followersCount, 0),
      followingCount := OrNumber(author.followingCount, 0),
      statusesCount := OrNumber(author.statusesCount, 0),
      hideCollections := false,
      noindex := false,
      emojis := [],
      roles := [],
      fields := [])
  }

  /* ------------------------------------------------------------------ */
  /*  Status                                                            */
  /* ------------------------------------------------------------------ */

  /** createStatus. */
  function CreateStatus(options: StatusOptions, statusNow: string, accountNow: string): (r: Status)
    ensures r.id == options.id && r.url == options.url && r.uri == options.url
    ensures r.content == options.content
    ensures Given(options.createdAt) ==> r.createdAt == options.createdAt.value
    ensures !Given(options.createdAt) ==> r.createdAt == statusNow
    ensures r.inReplyToId == (if Given(options.replyToId) then options.replyToId else None)
    ensures r.language == Some(if Given(options.language) then options.language.value else "en")
    ensures r.spoilerText == (if Given(options.spoilerText) then options.spoilerText.value else "")
    ensures r.visibility == (if options.visibility.Some? then VisibilityName(options.visibility.value) else "public")
    ensures r.application.name == (if Given(options.applicationName) then options.applicationName.value else "Web")
    ensures options.media.None? ==> r.mediaAttachments == []
    ensures options.media.Some? ==> r.mediaAttachments == BuildMediaAttachments(options.media.value)
    ensures r.account == BuildAccount(options.author, accountNow)
    ensures r.mentions == [] && r.tags == [] && r.emojis == []
  {
    Status(
      id := options.id,
      url := options.url,
      uri := options.url,
      createdAt := OrString(options.createdAt, statusNow),
      editedAt := Null,
      reblog := Null,
      inReplyToId := OrNull(options.replyToId),
      inReplyToAccountId := Null,
      language := Some(OrString(options.language, "en")),
      content := options.content,
      spoilerText := OrString(options.spoilerText, ""),
      visibility := if options.visibility.Some? then VisibilityName(options.visibility.value) else "public",
      application := Application(OrString(options.applicationName, "Web"), Null),
      mediaAttachments := BuildMediaAttachments(if options.media.Some? then options.media.value else []),
      account := BuildAccount(options.author, accountNow),
      mentions := [],
      tags := [],
      emojis := [],
      card := Null,
      poll := Null)
  }

  /** Example: only the required fields given. */
  lemma MinimalStatusExample(options: StatusOptions, statusNow: string, accountNow: string)
    requires options.createdAt == None && options.language == None && options.media == None
    requires options.replyToId == None && options.applicationName == None
    requires options.spoilerText == None && options.visibility == None
    requires options.author.followersCount == None
    ensures var r := CreateStatus(options, statusNow, accountNow);
      && r.language == Some("en") && r.visibility == "public" && r.spoilerText == ""
      && r.mediaAttachments == [] && r.account.followersCount == 0
      && r.createdAt == statusNow && r.inReplyToId == None && r.application.name == "Web"
  {
  }

  /* ------------------------------------------------------------------ */
  /*  `||` treats falsy fields as absent                                */
  /* ------------------------------------------------------------------ */

  function TruthyNumber(x: Option<int>): Option<int>
  {
    if GivenNumber(x) then x else None
  }

  function TruthyBool(x: Option<bool>): Option<bool>
  {
    if x == Some(true) then x else None
  }

  /** The author with every falsy optional field made absent. */
  function ForgetFalsyAuthor(a: StatusAuthor): StatusAuthor
  {
    a.(url := OrNull(a.url), avatarUrl := OrNull(a.avatarUrl), bannerUrl := OrNull(a.bannerUrl),
       followersCount := TruthyNumber(a.followersCount), followingCount := TruthyNumber(a.followingCount),
       statusesCount := TruthyNumber(a.statusesCount), protected := TruthyBool(a.protected),
       joinedAt := OrNull(a.joinedAt))
  }

  /** The media item with every falsy optional field made absent. */
  function ForgetFalsyMedia(m: StatusMedia): StatusMedia
  {
    m.(id := OrNull(m.id), thumbnailUrl := OrNull(m.thumbnailUrl), width := TruthyNumber(m.width),
       height := TruthyNumber(m.height), altText := OrNull(m.altText))
  }

  /** The options with every falsy optional field made absent, in the
      author and in each media item too. An empty media list is truthy in
      JavaScript and is kept. */
  function ForgetFalsy(o: StatusOptions): StatusOptions
  {
    o.(createdAt := OrNull(o.createdAt), language := OrNull(o.language),
       author := ForgetFalsyAuthor(o.author),
       media := if o.media.Some? then Some(seq(|o.media.value|, i requires 0 <= i < |o.media.value| => ForgetFalsyMedia(o.media.value[i]))) else None,
       replyToId := OrNull(o.replyToId), applicationName := OrNull(o.applicationName),
       spoilerText := OrNull(o.spoilerText))
  }

  lemma AccountIgnoresFalsy(a: StatusAuthor, accountNow: string)
    ensures BuildAccount(ForgetFalsyAuthor(a), accountNow) == BuildAccount(a, accountNow)
  {
  }

  lemma AttachmentsIgnoreFalsy(media: seq<StatusMedia>, forgot: seq<StatusMedia>)
    requires |forgot| == |media|
    requires forall i :: 0 <= i < |media| ==> forgot[i] == ForgetFalsyMedia(media[i])
    ensures BuildMediaAttachments(forgot) == BuildMediaAttachments(media)
  {
    var r, q := BuildMediaAttachments(forgot), BuildMediaAttachments(media);
    forall i | 0 <= i < |media| ensures r[i] == q[i] {
      assert forgot[i] == ForgetFalsyMedia(media[i]);
    }
  }

  /** Writing `""`, `0` or `false` into an optional field gives the same
      status as leaving the field out. */
  lemma FalsyFieldsActAsAbsent(o: StatusOptions, statusNow: string, accountNow: string)
    ensures CreateStatus(ForgetFalsy(o), statusNow, accountNow) == CreateStatus(o, statusNow, accountNow)
  {
    AccountIgnoresFalsy(o.author, accountNow);
    if o.media.Some? {
      AttachmentsIgnoreFalsy(o.media.value, ForgetFalsy(o).media.value);
    }
  }
}
