/** The input and output records of the status builder. Optional input
    fields (`field?: T`) are `Option<T>`; output fields of TypeScript type
    `null` have type `Null`; the `never[]` lists are `seq<Null>`, which the
    builder always leaves empty. JavaScript numbers are modelled as integers.
    Field names are the camel-case forms of the JSON keys (`display_name`
    is `displayName`, `media_attachments` is `mediaAttachments`). */
module Types {
  import opened Wrappers

  /* ------------------------------------------------------------------ */
  /*  Input                                                             */
  /* ------------------------------------------------------------------ */

  datatype Visibility = Public | Unlisted | Private | Direct

  /** The `type` of an input media item. */
  datatype MediaType = Image | Video | Gif

  datatype StatusAuthor = StatusAuthor(
    id: string,
    displayName: string,
    username: string,
    url: Option<string>,
    avatarUrl: Option<string>,
    bannerUrl: Option<string>,
    followersCount: Option<int>,
    followingCount: Option<int>,
    statusesCount: Option<int>,
    protected: Option<bool>,
    joinedAt: Option<string>)

  datatype StatusMedia = StatusMedia(
    mediaType: MediaType,
    url: string,
    id: Option<string>,
    thumbnailUrl: Option<string>,
    width: Option<int>,
    height: Option<int>,
    altText: Option<string>)

  datatype StatusOptions = StatusOptions(
    id: string,
    url: string,
    content: string,
    createdAt: Option<string>,
    language: Option<string>,
    author: StatusAuthor,
    media: Option<seq<StatusMedia>>,
    replyToId: Option<string>,
    applicationName: Option<string>,
    spoilerText: Option<string>,
    visibility: Option<Visibility>)

  /* ------------------------------------------------------------------ */
  /*  Output (Mastodon API v1 shapes)                                   */
  /* ------------------------------------------------------------------ */

  datatype Account = Account(
    id: string,
    displayName: string,
    username: string,
    acct: string,
    url: string,
    uri: string,
    createdAt: string,
    locked: bool,
    bot: bool,
    discoverable: bool,
    indexable: bool,
    group: bool,
    avatar: string,
    avatarStatic: string,
    header: string,
    headerStatic: string,
    followersCount: int,
    followingCount: int,
    statusesCount: int,
    hideCollections: bool,
    noindex: bool,
    emojis: seq<Null>,
    roles: seq<Null>,
    fields: seq<Null>)

  /** The `type` of an output attachment. */
  datatype AttachmentType = Image | Video | Gifv | Audio

  /** The JavaScript number `width / height`, left as the pair of operands
      (floating-point division is not modelled), or the constant 1. */
  datatype Aspect = One | Quotient(dividend: int, divisor: int)

  datatype Original = Original(width: int, height: int, size: string, aspect: Aspect)

  datatype Meta = Meta(original: Original)

  datatype MediaAttachment = MediaAttachment(
    id: string,
    attachmentType: AttachmentType,
    url: string,
    previewUrl: Option<string>,
    remoteUrl: Null,
    previewRemoteUrl: Null,
    textUrl: Null,
    description: Option<string>,
    meta: Meta)

  datatype Application = Application(name: string, website: Null)

  datatype Status = Status(
    id: string,
    url: string,
    uri: string,
    createdAt: string,
    editedAt: Null,
    reblog: Null,
    inReplyToId: Option<string>,
    inReplyToAccountId: Null,
    language: Option<string>,
    content: string,
    spoilerText: string,
    visibility: string,
    application: Application,
    mediaAttachments: seq<MediaAttachment>,
    account: Account,
    mentions: seq<Null>,
    tags: seq<Null>,
    emojis: seq<Null>,
    card: Null,
    poll: Null)
}
