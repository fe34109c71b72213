/** The caption `extract_media` attaches to downloaded media (bot.py:99-104)
    and the media group it assembles for a carousel post (bot.py:121-137). */
module Captions {
  import opened Common

  const Header: string := "\U{1F4E5} **Downloaded via Instagram Bot**\n\n"
  const OwnerMark: string := "\U{1F464} @"
  const TextMark: string := "\U{1F4DD} "
  /** Only this many characters of the post's own caption are kept. */
  const CaptionLimit: nat := 1000

  /** `👤 @owner` on its own line, present only for a non-empty username. */
  function OwnerLine(owner: string): string {
    if owner == "" then "" else OwnerMark + owner + "\n"
  }

  /** `📝 text[:1000]` on its own line, present only for a non-empty caption. */
  function TextLine(text: string): string {
    if text == "" then "" else TextMark + Truncate(text, CaptionLimit) + "\n"
  }

  /** The caption of bot.py:99-104. A post without a caption (`None`) is
      passed as "", which the source treats the same way. */
  function BuildCaption(owner: string, postCaption: string): (c: string)
    ensures Header <= c
    ensures owner == "" && postCaption == "" ==> c == Header
    ensures |c| <= |Header| + |OwnerLine(owner)| + |TextMark| + CaptionLimit + 1
    ensures OwnerMark <= c[|Header|..] <==> owner != ""
    ensures |Header| + |OwnerLine(owner)| <= |c|
      && (TextMark <= c[|Header| + |OwnerLine(owner)|..] <==> postCaption != "")
  {
    var owned := OwnerLine(owner);
    var text := TextLine(postCaption);
    var c := Header + (owned + text);
    assert c[|Header|..] == owned + text;
    assert c[|Header| + |owned|..] == text;
    OwnerMarkLeads(owner, postCaption);
    TextMarkLeads(postCaption);
    c
  }

  /** The text line is at most the mark, 1000 characters and a line break, and
      it starts with the mark exactly when there is post text. */
  lemma TextMarkLeads(postCaption: string)
    ensures |TextLine(postCaption)| <= |TextMark| + CaptionLimit + 1
    ensures TextMark <= TextLine(postCaption) <==> postCaption != ""
  {
  }

  /** The owner mark opens the lines after the header exactly when there is an
      owner: otherwise they are empty or start with the text mark. */
  lemma OwnerMarkLeads(owner: string, postCaption: string)
    ensures OwnerMark <= OwnerLine(owner) + TextLine(postCaption) <==> owner != ""
    ensures owner == "" ==>
      var lines := OwnerLine(owner) + TextLine(postCaption);
      lines == "" || TextMark <= lines
  {
    var rest := OwnerLine(owner) + TextLine(postCaption);
    if owner == "" && postCaption != "" {
      assert rest[0] == TextMark[0];
    }
  }

  // ----- Reading a caption back -----

  /** The text before the first line break of `s` (all of `s` if it has none). */
  function FirstLine(s: string): (line: string)
    ensures line <= s
    ensures '\n' !in line
    ensures |line| < |s| ==> s[|line|] == '\n'
  {
    if s == [] || s[0] == '\n' then [] else [s[0]] + FirstLine(s[1..])
  }

  lemma {:induction false} FirstLineOfJoin(line: string, rest: string)
    requires '\n' !in line
    ensures FirstLine(line + "\n" + rest) == line
  {
    if line != [] {
      assert (line + "\n" + rest)[1..] == line[1..] + "\n" + rest;
      FirstLineOfJoin(line[1..], rest);
    }
  }

  /** Splits an optional owner line off the front of `rest`; an owner line
      with an empty name is not one BuildCaption writes. */
  function ParseOwner(rest: string): Option<(string, string)> {
    if OwnerMark <= rest then
      var line := FirstLine(rest[|OwnerMark|..]);
      if |OwnerMark| + |line| < |rest| && line != "" then Some((line, rest[|OwnerMark| + |line| + 1..]))
      else None
    else Some(("", rest))
  }

  /** Reads the optional caption-text line, which is never empty when present. */
  function ParseText(body: string): Option<string> {
    if body == "" then Some("")
    else if |TextMark| + 1 < |body| && TextMark <= body && body[|body| - 1] == '\n' then
      Some(body[|TextMark|..|body| - 1])
    else None
  }

  /** Recovers the owner and the kept caption text from a caption built by
      BuildCaption; `None` for text of another shape. */
  function ParseCaption(c: string): Option<(string, string)> {
    if !(Header <= c) then None
    else
      match ParseOwner(c[|Header|..])
      case None => None
      case Some((owner, body)) =>
        match ParseText(body)
        case None => None
        case Some(text) => Some((owner, text))
  }

  lemma ParseTextLine(postCaption: string)
    ensures ParseText(TextLine(postCaption)) == Some(Truncate(postCaption, CaptionLimit))
  {
  }

  lemma ParseOwnerLine(owner: string, body: string)
    requires '\n' !in owner
    requires body == "" || body[0] == TextMark[0]
    ensures ParseOwner(OwnerLine(owner) + body) == Some((owner, body))
  {
    var rest := OwnerLine(owner) + body;
    if owner != "" {
      assert rest == OwnerMark + (owner + "\n" + body);
      assert rest[|OwnerMark|..] == owner + "\n" + body;
      FirstLineOfJoin(owner, body);
      assert rest[|OwnerMark| + |owner| + 1..] == body;
    } else if body != "" {
      assert rest == body;
    }
  }

  /** The caption loses nothing but what the 1000-character cut removes: the
      owner (a username holds no line break) and the kept part of the post's
      caption can be read back. Since the parser accepts neither an empty owner
      line nor an empty text line, each line is there exactly when its input
      is non-empty. */
  lemma CaptionRoundTrip(owner: string, postCaption: string)
    requires '\n' !in owner
    ensures ParseCaption(BuildCaption(owner, postCaption)) == Some((owner, Truncate(postCaption, CaptionLimit)))
  {
    var c := BuildCaption(owner, postCaption);
    var text := TextLine(postCaption);
    assert c[|Header|..] == OwnerLine(owner) + text;
    ParseOwnerLine(owner, text);
    ParseTextLine(postCaption);
  }

  // ----- Carousel posts -----

  /** One node of a carousel (`get_sidecar_nodes()`), photo or video. */
  datatype SidecarNode = SidecarNode(isVideo: bool)

  /** The Telegram media items bot.py:126-134 appends: a video never has a
      caption, a photo may. */
  datatype InputMedia = InputMediaPhoto(caption: Option<string>) | InputMediaVideo

  predicate CarriesCaption(m: InputMedia) {
    m.InputMediaPhoto? && m.caption.Some?
  }

  /** The media group of a carousel (bot.py:122-135): one item per node, in
      order and of the node's kind, and the caption rides only on the first
      item, and only when that item is a photo. */
  method BuildMediaGroup(nodes: seq<SidecarNode>, caption: string) returns (group: seq<InputMedia>)
    ensures |group| == |nodes|
    ensures forall i :: 0 <= i < |group| ==> (group[i].InputMediaVideo? <==> nodes[i].isVideo)
    ensures forall i :: 0 <= i < |group| ==> (CarriesCaption(group[i]) <==> i == 0 && !nodes[i].isVideo)
    ensures forall i :: 0 <= i < |group| && CarriesCaption(group[i]) ==> group[i].caption.value == caption
  {
    group := [];
    for i := 0 to |nodes|
      invariant |group| == i
      invariant forall j :: 0 <= j < i ==> (group[j].InputMediaVideo? <==> nodes[j].isVideo)
      invariant forall j :: 0 <= j < i ==> (CarriesCaption(group[j]) <==> j == 0 && !nodes[j].isVideo)
      invariant forall j :: 0 <= j < i && CarriesCaption(group[j]) ==> group[j].caption.value == caption
    {
      if nodes[i].isVideo {
        group := group + [InputMediaVideo];
      } else if i == 0 {
        group := group + [InputMediaPhoto(Some(caption))];
      } else {
        group := group + [InputMediaPhoto(None)];
      }
    }
  }
}
