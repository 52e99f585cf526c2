/** Clipboard contents, their wire form, and one machine's clipboard (src/clipboard.rs). */
module Clipboards {
  import opened Wrappers
  import Utf8

  // ---- contents ----

  type Usize = x: int | 0 <= x < 0x1_0000_0000_0000_0000
  type Int32 = x: int | -0x8000_0000 <= x < 0x8000_0000

  datatype Image = Rgba(width: Usize, height: Usize, pixels: Bytes) | Png(file: Bytes) | Svg(text: string)

  datatype Data =
    | Nothing
    | Text(text: string)
    | Rtf(text: string)
    | Html(text: string)
    | Picture(image: Image)
    | FileUrl(urls: seq<string>)
    | Special(name: string, data: Bytes)

  const OWNER := "dyn.com.rustdesk.owner"
  const SPREADSHEET := "XML Spreadsheet"

  datatype Side = Host | Client

  function OwnerData(side: Side): Bytes {
    match side
    case Host => [1]
    case Client => [2]
  }

  /** Either of the two low bits: a clipboard set by any side counts as owned. */
  predicate IsOwner(data: Bytes) {
    data != [] && data[0] % 4 != 0
  }

  // ---- wire form ----

  datatype Format = AsText | AsRtf | AsHtml | AsRgba | AsPng | AsSvg | AsSpecial | Unknown

  datatype Clip = Clip(compressed: bool, content: Bytes, width: Int32, height: Int32, format: Format,
                       specialName: string)

  /** The compression library. */
  datatype Codec = Codec(compress: Bytes -> Bytes, decompress: Bytes -> Bytes)

  ghost predicate Faithful(codec: Codec) {
    forall b: Bytes :: codec.decompress(codec.compress(b)) == b
  }

  /** Narrowing cast of a size to the 32-bit field. */
  function Narrow(w: Usize): Int32 {
    var low := w % 0x1_0000_0000;
    if low < 0x8000_0000 then low else low - 0x1_0000_0000
  }

  /** Widening cast back, with sign extension. */
  function Widen(v: Int32): Usize {
    if v >= 0 then v else v + 0x1_0000_0000_0000_0000
  }

  function Shrinks(codec: Codec, raw: Bytes): bool {
    |codec.compress(raw)| < |raw|
  }

  /** Compressed content when that is shorter, the fallback octets otherwise. */
  function Pack(codec: Codec, raw: Bytes, fallback: Bytes, format: Format): Clip {
    if Shrinks(codec, raw) then Clip(true, codec.compress(raw), 0, 0, format, "")
    else Clip(false, fallback, 0, 0, format, "")
  }

  function PackPlain(codec: Codec, text: string, format: Format): Clip {
    Pack(codec, Utf8.Encode(text), Utf8.Encode(text), format)
  }

  /** The uncompressed form of special data holds the octets of its name. */
  function PackSpecial(codec: Codec, name: string, data: Bytes): Clip {
    Pack(codec, data, Utf8.Encode(name), AsSpecial).(specialName := name)
  }

  function PackImage(codec: Codec, image: Image): Clip {
    match image
    case Rgba(w, h, pixels) => Pack(codec, pixels, pixels, AsRgba).(width := Narrow(w), height := Narrow(h))
    case Png(file) => Clip(false, file, 0, 0, AsPng, "")
    case Svg(text) => PackPlain(codec, text, AsSvg)
  }

  function ToClip(codec: Codec, data: Data): Option<Clip> {
    match data
    case Text(s) => Some(PackPlain(codec, s, AsText))
    case Rtf(s) => Some(PackPlain(codec, s, AsRtf))
    case Html(s) => Some(PackPlain(codec, s, AsHtml))
    case Picture(image) => Some(PackImage(codec, image))
    case Special(name, d) => Some(PackSpecial(codec, name, d))
    case _ => None
  }

  function FromClip(codec: Codec, clip: Clip): Option<Data> {
    var data := if clip.compressed then codec.decompress(clip.content) else clip.content;
    var text := Utf8.Decode(data);
    match clip.format
    case AsText => if text.Some? then Some(Text(text.value)) else None
    case AsRtf => if text.Some? then Some(Rtf(text.value)) else None
    case AsHtml => if text.Some? then Some(Html(text.value)) else None
    case AsRgba => Some(Picture(Rgba(Widen(clip.width), Widen(clip.height), data)))
    case AsPng => Some(Picture(Png(data)))
    case AsSvg => Some(Picture(Svg(if text.Some? then text.value else "")))
    case AsSpecial => Some(Special(clip.specialName, data))
    case Unknown => None
  }

  function ToClips(codec: Codec, contents: seq<Data>): seq<Clip> {
    if contents == [] then []
    else
      var rest := ToClips(codec, contents[1..]);
      match ToClip(codec, contents[0])
      case Some(clip) => [clip] + rest
      case None => rest
  }

  function FromClips(codec: Codec, clips: seq<Clip>): seq<Data> {
    if clips == [] then []
    else
      var rest := FromClips(codec, clips[1..]);
      match FromClip(codec, clips[0])
      case Some(data) => [data] + rest
      case None => rest
  }

  // ---- what survives the wire ----

  /** A size that both casts leave alone. */
  predicate SmallSize(w: Usize) {
    w < 0x8000_0000 || w >= 0x1_0000_0000_0000_0000 - 0x8000_0000
  }

  predicate Survives(codec: Codec, data: Data) {
    match data
    case Picture(Rgba(w, h, _)) => SmallSize(w) && SmallSize(h)
    case Special(name, d) => Shrinks(codec, d) || d == Utf8.Encode(name)
    case Nothing => false
    case FileUrl(_) => false
    case _ => true
  }

  lemma SizeRoundTrip(w: Usize)
    ensures Widen(Narrow(w)) == w <==> SmallSize(w)
  {
  }

  /** One datum comes back unchanged exactly when it survives, whether or not it was compressed. */
  lemma DataRoundTrip(codec: Codec, data: Data)
    requires Faithful(codec)
    ensures var clip := ToClip(codec, data);
            clip.Some? && FromClip(codec, clip.value) == Some(data) <==> Survives(codec, data)
  {
    match data
    case Text(s) => Utf8.DecodeEncode(s);
    case Rtf(s) => Utf8.DecodeEncode(s);
    case Html(s) => Utf8.DecodeEncode(s);
    case Picture(Svg(s)) => Utf8.DecodeEncode(s);
    case Picture(Rgba(w, h, pixels)) =>
      SizeRoundTrip(w);
      SizeRoundTrip(h);
    case _ =>
  }

  lemma {:induction false} ContentsRoundTrip(codec: Codec, contents: seq<Data>)
    requires Faithful(codec)
    requires forall d | d in contents :: Survives(codec, d)
    ensures FromClips(codec, ToClips(codec, contents)) == contents
  {
    if contents != [] {
      DataRoundTrip(codec, contents[0]);
      ContentsRoundTrip(codec, contents[1..]);
      var clips := ToClips(codec, contents);
      assert clips[1..] == ToClips(codec, contents[1..]);
      assert contents == [contents[0]] + contents[1..];
    }
  }

  // ---- reading and setting ----

  /** What the clipboard returns for the formats that are asked for; file lists only where they are synchronised. */
  predicate IsAskedFor(files: bool, data: Data) {
    match data
    case Nothing => false
    case FileUrl(_) => files
    case Special(name, _) => name == SPREADSHEET || name == OWNER
    case _ => true
  }

  function Filter(keep: Data -> bool, contents: seq<Data>): seq<Data> {
    if contents == [] then []
    else if keep(contents[0]) then [contents[0]] + Filter(keep, contents[1..])
    else Filter(keep, contents[1..])
  }

  predicate IsOwnerMark(data: Data) {
    data.Special? && data.name == OWNER && IsOwner(data.data)
  }

  predicate IsSent(data: Data) {
    match data
    case Special(name, _) => name != OWNER
    case Text(text) => text != ""
    case _ => true
  }

  predicate Any(p: Data -> bool, contents: seq<Data>) {
    exists i | 0 <= i < |contents| :: p(contents[i])
  }

  function Readable(files: bool, contents: seq<Data>): seq<Data> {
    Filter(d => IsAskedFor(files, d), contents)
  }

  /** An owned clipboard reads as empty unless forced; the owner mark and empty texts are never sent. */
  function Filtered(data: seq<Data>, force: bool): seq<Data> {
    if !force && Any(IsOwnerMark, data) then [] else Filter(IsSent, data)
  }

  function Fetched(files: bool, contents: seq<Data>, force: bool): seq<Data> {
    var data := Filtered(Readable(files, contents), force);
    if Any((d: Data) => d.FileUrl?, data) then [] else data
  }

  /** The message that a look at the clipboard sends, if any. */
  function Checked(codec: Codec, files: bool, contents: seq<Data>, force: bool): Option<seq<Clip>> {
    var data := Fetched(files, contents, force);
    if data == [] then None else Some(ToClips(codec, data))
  }

  /** The contents after a message has been applied by the given side. */
  function Updated(codec: Codec, contents: seq<Data>, clips: seq<Clip>, side: Side): seq<Data> {
    var data := FromClips(codec, clips);
    if data == [] then contents else data + [Special(OWNER, OwnerData(side))]
  }

  lemma {:induction false} FilterMember(keep: Data -> bool, contents: seq<Data>, d: Data)
    ensures d in Filter(keep, contents) <==> d in contents && keep(d)
  {
    if contents != [] {
      FilterMember(keep, contents[1..], d);
      assert contents == [contents[0]] + contents[1..];
    }
  }

  lemma {:induction false} FilterAll(keep: Data -> bool, contents: seq<Data>)
    requires forall d | d in contents :: keep(d)
    ensures Filter(keep, contents) == contents
  {
    if contents != [] {
      FilterAll(keep, contents[1..]);
    }
  }

  lemma MarkedIsSilent(codec: Codec, files: bool, contents: seq<Data>, mark: Data)
    requires mark in contents && IsOwnerMark(mark)
    ensures Checked(codec, files, contents, false) == None
  {
    FilterMember(d => IsAskedFor(files, d), contents, mark);
  }

  /** Whatever a peer sent is never sent back. */
  lemma UpdatedIsSilent(codec: Codec, files: bool, contents: seq<Data>, clips: seq<Clip>, side: Side)
    requires FromClips(codec, clips) != []
    ensures Checked(codec, files, Updated(codec, contents, clips, side), false) == None
  {
    var mark := Special(OWNER, OwnerData(side));
    var updated := Updated(codec, contents, clips, side);
    assert updated[|updated| - 1] == mark;
    MarkedIsSilent(codec, files, updated, mark);
  }

  // ---- what is sent, by kind ----

  ghost predicate IsOwned(contents: seq<Data>) {
    exists mark: Bytes :: Special(OWNER, mark) in contents && mark != [] && mark[0] % 4 != 0
  }

  predicate HasFiles(contents: seq<Data>) {
    exists i | 0 <= i < |contents| :: contents[i].FileUrl?
  }

  /** The data of the kinds that are synchronised, in their order. */
  function Synced(files: bool, contents: seq<Data>): seq<Data> {
    if contents == [] then []
    else
      var first, rest := contents[0], Synced(files, contents[1..]);
      match first
      case Text(text) => if text == "" then rest else [first] + rest
      case Rtf(_) => [first] + rest
      case Html(_) => [first] + rest
      case Picture(_) => [first] + rest
      case FileUrl(_) => if files then [first] + rest else rest
      case Special(name, _) => if name == SPREADSHEET then [first] + rest else rest
      case Nothing => rest
  }

  /** Each datum of contents, by its kind. */
  lemma {:induction false} SyncedKinds(files: bool, contents: seq<Data>, d: Data)
    ensures d in Synced(files, contents) <==>
            d in contents && match d
                             case Text(text) => text != ""
                             case Rtf(_) => true
                             case Html(_) => true
                             case Picture(_) => true
                             case FileUrl(_) => files
                             case Special(name, _) => name == "XML Spreadsheet"
                             case Nothing => false
  {
    if contents != [] {
      SyncedKinds(files, contents[1..], d);
      assert contents == [contents[0]] + contents[1..];
    }
  }

  lemma {:induction false} ReadableIsSynced(files: bool, contents: seq<Data>)
    ensures Filter(IsSent, Readable(files, contents)) == Synced(files, contents)
  {
    if contents != [] {
      ReadableIsSynced(files, contents[1..]);
    }
  }

  lemma OwnedIsMarked(files: bool, contents: seq<Data>)
    ensures Any(IsOwnerMark, Readable(files, contents)) <==> IsOwned(contents)
  {
    var data := Readable(files, contents);
    if i :| 0 <= i < |data| && IsOwnerMark(data[i]) {
      FilterMember(d => IsAskedFor(files, d), contents, data[i]);
      assert Special(OWNER, data[i].data) in contents;
    }
    if mark: Bytes :| Special(OWNER, mark) in contents && mark != [] && mark[0] % 4 != 0 {
      FilterMember(d => IsAskedFor(files, d), contents, Special(OWNER, mark));
    }
  }

  /** An owned clipboard reads as empty unless forced; otherwise exactly the kinds that are synchronised are read. */
  lemma FilteredIs(files: bool, contents: seq<Data>, force: bool)
    ensures Filtered(Readable(files, contents), force) ==
            if IsOwned(contents) && !force then [] else Synced(files, contents)
  {
    ReadableIsSynced(files, contents);
    OwnedIsMarked(files, contents);
  }

  lemma FilesAreSynced(files: bool, contents: seq<Data>)
    ensures HasFiles(Synced(files, contents)) <==> files && HasFiles(contents)
  {
    var data := Synced(files, contents);
    if i :| 0 <= i < |data| && data[i].FileUrl? {
      SyncedKinds(files, contents, data[i]);
    }
    if i :| 0 <= i < |contents| && contents[i].FileUrl? {
      SyncedKinds(files, contents, contents[i]);
    }
  }

  /** Where file lists are synchronised, one on the clipboard keeps everything else from being sent. */
  lemma FetchedIs(files: bool, contents: seq<Data>, force: bool)
    ensures Fetched(files, contents, force) ==
            if (IsOwned(contents) && !force) || (files && HasFiles(contents)) then [] else Synced(files, contents)
  {
    FilteredIs(files, contents, force);
    FilesAreSynced(files, contents);
    var data := Filtered(Readable(files, contents), force);
    assert Any((d: Data) => d.FileUrl?, data) <==> HasFiles(data);
  }

  /**
    * Any contents: a look that is not forced sends nothing of an owned clipboard; beside a file list nothing is sent
    * where those are synchronised; else exactly the data of the synchronised kinds go out, if there are any.
    */
  lemma CheckedIs(codec: Codec, files: bool, contents: seq<Data>, force: bool)
    ensures Checked(codec, files, contents, force) ==
            if (IsOwned(contents) && !force) || (files && HasFiles(contents)) || Synced(files, contents) == [] then None
            else Some(ToClips(codec, Synced(files, contents)))
  {
    FetchedIs(files, contents, force);
  }

  /** A datum that is sent and comes back as it was. */
  predicate IsSentWhole(codec: Codec, data: Data) {
    match data
    case Text(text) => text != ""
    case Rtf(_) => true
    case Html(_) => true
    case Picture(Rgba(w, h, _)) => SmallSize(w) && SmallSize(h)
    case Picture(Png(_)) => true
    case Picture(Svg(_)) => true
    case Special(name, d) => name == SPREADSHEET && (|codec.compress(d)| < |d| || d == Utf8.Encode(SPREADSHEET))
    case FileUrl(_) => false
    case Nothing => false
  }

  /** Contents that a user puts on the clipboard and that can be sent whole. */
  ghost predicate IsWhole(codec: Codec, contents: seq<Data>) {
    contents != [] && forall d | d in contents :: IsSentWhole(codec, d)
  }

  lemma {:induction false} AllSynced(files: bool, contents: seq<Data>)
    ensures |Synced(files, contents)| <= |contents|
    ensures Synced(files, contents) == contents <==> forall d | d in contents :: d in Synced(files, contents)
    ensures |Synced(files, contents)| == |contents| ==> Synced(files, contents) == contents
  {
    if contents != [] {
      AllSynced(files, contents[1..]);
      forall d | d in contents[1..]
        ensures d in Synced(files, contents) <==> d in Synced(files, contents[1..])
      {
        SyncedKinds(files, contents, d);
        SyncedKinds(files, contents[1..], d);
      }
      assert contents == [contents[0]] + contents[1..];
      SyncedKinds(files, contents, contents[0]);
    }
  }

  lemma OwnerIsNoSpreadsheet()
    ensures OWNER != SPREADSHEET
  {
    assert |OWNER| != |SPREADSHEET|;
  }

  lemma WholeIsFree(codec: Codec, files: bool, contents: seq<Data>)
    requires IsWhole(codec, contents)
    ensures !IsOwned(contents) && !HasFiles(contents) && Synced(files, contents) == contents
  {
    OwnerIsNoSpreadsheet();
    forall d | d in contents
      ensures d in Synced(files, contents)
    {
      assert IsSentWhole(codec, d);
      SyncedKinds(files, contents, d);
    }
    AllSynced(files, contents);
    assert forall i | 0 <= i < |contents| :: IsSentWhole(codec, contents[i]);
  }

  lemma WholeSurvives(codec: Codec, contents: seq<Data>)
    requires IsWhole(codec, contents)
    ensures forall d | d in contents :: Survives(codec, d)
  {
    forall d | d in contents
      ensures Survives(codec, d)
    {
      assert IsSentWhole(codec, d);
    }
  }

  lemma WholeIsSent(codec: Codec, files: bool, contents: seq<Data>)
    requires Faithful(codec) && IsWhole(codec, contents)
    ensures Checked(codec, files, contents, false) == Some(ToClips(codec, contents))
    ensures FromClips(codec, ToClips(codec, contents)) == contents
  {
    WholeIsFree(codec, files, contents);
    CheckedIs(codec, files, contents, false);
    WholeSurvives(codec, contents);
    ContentsRoundTrip(codec, contents);
  }

  /** What comes back of a list is no longer than it, and as long only if every datum comes back as something. */
  lemma {:induction false} WireLength(codec: Codec, data: seq<Data>)
    ensures var back := FromClips(codec, ToClips(codec, data));
            && |back| <= |data|
            && (|back| == |data| ==>
                  forall i | 0 <= i < |data| ::
                    ToClip(codec, data[i]).Some? && FromClip(codec, ToClip(codec, data[i]).value) == Some(back[i]))
  {
    if data != [] {
      WireLength(codec, data[1..]);
      var clip := ToClip(codec, data[0]);
      if clip.Some? {
        assert ToClips(codec, data)[1..] == ToClips(codec, data[1..]);
      }
    }
  }

  lemma {:induction false} SyncedComesBack(codec: Codec, files: bool, contents: seq<Data>)
    requires Faithful(codec) && !(files && HasFiles(contents))
    ensures |FromClips(codec, ToClips(codec, Synced(files, contents)))| == |Synced(files, contents)|
  {
    if contents != [] {
      assert forall i | 0 <= i < |contents[1..]| :: contents[1..][i] == contents[i + 1];
      SyncedComesBack(codec, files, contents[1..]);
      ComesBack(codec, contents[0]);
      var data := Synced(files, contents);
      if |data| > |Synced(files, contents[1..])| {
        assert data == [contents[0]] + Synced(files, contents[1..]);
        assert data[1..] == Synced(files, contents[1..]);
        assert ToClips(codec, data)[1..] == ToClips(codec, data[1..]);
      }
    }
  }

  lemma ComesBack(codec: Codec, data: Data)
    requires Faithful(codec)
    ensures var clip := ToClip(codec, data); clip.Some? ==> FromClip(codec, clip.value).Some?
  {
    DataRoundTrip(codec, data);
  }

  /** Everything that is sent arrives as something. */
  lemma FetchedArrives(codec: Codec, files: bool, contents: seq<Data>, force: bool)
    requires Faithful(codec)
    ensures var sent := Fetched(files, contents, force);
            |FromClips(codec, ToClips(codec, sent))| == |sent|
  {
    FetchedIs(files, contents, force);
    if !(files && HasFiles(contents)) {
      SyncedComesBack(codec, files, contents);
    }
  }

  /** A peer gets the contents as they are exactly when they are whole. */
  lemma SentWhole(codec: Codec, files: bool, contents: seq<Data>)
    requires Faithful(codec) && contents != []
    ensures (var sent := Checked(codec, files, contents, false);
             sent.Some? && FromClips(codec, sent.value) == contents) <==> IsWhole(codec, contents)
  {
    var sent := Checked(codec, files, contents, false);
    if IsWhole(codec, contents) {
      WholeIsSent(codec, files, contents);
    } else if sent.Some? && FromClips(codec, sent.value) == contents {
      CheckedIs(codec, files, contents, false);
      WireLength(codec, Synced(files, contents));
      AllSynced(files, contents);
      forall i | 0 <= i < |contents|
        ensures IsSentWhole(codec, contents[i])
      {
        SyncedKinds(files, contents, contents[i]);
        DataRoundTrip(codec, contents[i]);
      }
    }
  }

  /** How octets travel: compressed just when that makes them fewer. */
  predicate Carries(codec: Codec, clip: Clip, raw: Bytes) {
    && clip.compressed == (|codec.compress(raw)| < |raw|)
    && clip.content == if clip.compressed then codec.compress(raw) else raw
  }

  /** The wire form of every kind; special data that does not compress is replaced by its name. */
  lemma WireForm(codec: Codec, data: Data)
    ensures ToClip(codec, data).None? <==> data.Nothing? || data.FileUrl?
    ensures var clip := ToClip(codec, data);
            clip.Some? ==>
              match data
              case Text(text) => clip.value.format == AsText && Carries(codec, clip.value, Utf8.Encode(text))
              case Rtf(text) => clip.value.format == AsRtf && Carries(codec, clip.value, Utf8.Encode(text))
              case Html(text) => clip.value.format == AsHtml && Carries(codec, clip.value, Utf8.Encode(text))
              case Picture(Svg(text)) => clip.value.format == AsSvg && Carries(codec, clip.value, Utf8.Encode(text))
              case Picture(Png(file)) =>
                clip.value.format == AsPng && clip.value.content == file && !clip.value.compressed
              case Picture(Rgba(w, h, pixels)) =>
                && clip.value.format == AsRgba && Carries(codec, clip.value, pixels)
                && (clip.value.width - w) % 0x1_0000_0000 == 0 && (clip.value.height - h) % 0x1_0000_0000 == 0
              case Special(name, d) =>
                && clip.value.format == AsSpecial && clip.value.specialName == name
                && (if |codec.compress(d)| < |d| then Carries(codec, clip.value, d)
                    else !clip.value.compressed && clip.value.content == Utf8.Encode(name))
              case _ => true
  {
  }

  /** The octets that a clip stands for. */
  function Raw(codec: Codec, clip: Clip): Bytes {
    if clip.compressed then codec.decompress(clip.content) else clip.content
  }

  ghost predicate IsNoText(raw: Bytes) {
    forall text: string :: raw != Utf8.Encode(text)
  }

  lemma DecodedOrNoText(raw: Bytes)
    ensures Utf8.Decode(raw).None? <==> IsNoText(raw)
    ensures Utf8.Decode(raw).Some? ==> raw == Utf8.Encode(Utf8.Decode(raw).value)
  {
    match Utf8.Decode(raw)
    case Some(text) => Utf8.DecodesExactly(raw, text);
    case None =>
      forall text: string
        ensures raw != Utf8.Encode(text)
      {
        Utf8.DecodesExactly(raw, text);
      }
  }

  /**
    * What any clip gives, also one that no peer of this kind would send: texts that are not UTF-8 are dropped, except
    * that an SVG picture is then empty; sizes are widened with their sign; unknown formats are dropped.
    */
  lemma WireRead(codec: Codec, clip: Clip, text: string)
    ensures var raw, data := Raw(codec, clip), FromClip(codec, clip);
            match clip.format
            case AsText => (data == Some(Text(text)) <==> raw == Utf8.Encode(text)) && (data == None <==> IsNoText(raw))
            case AsRtf => (data == Some(Rtf(text)) <==> raw == Utf8.Encode(text)) && (data == None <==> IsNoText(raw))
            case AsHtml => (data == Some(Html(text)) <==> raw == Utf8.Encode(text)) && (data == None <==> IsNoText(raw))
            case AsSvg =>
              data == Some(Picture(Svg(text))) <==> raw == Utf8.Encode(text) || (text == "" && IsNoText(raw))
            case AsPng => data == Some(Picture(Png(raw)))
            case AsRgba =>
              && data.Some? && data.value.Picture? && data.value.image.Rgba? && data.value.image.pixels == raw
              && (data.value.image.width - clip.width) % 0x1_0000_0000_0000_0000 == 0
              && (data.value.image.height - clip.height) % 0x1_0000_0000_0000_0000 == 0
            case AsSpecial => data == Some(Special(clip.specialName, raw))
            case Unknown => data == None
  {
    Utf8.DecodesExactly(Raw(codec, clip), text);
    DecodedOrNoText(Raw(codec, clip));
  }

  // ---- the objects ----

  /** The clipboard of one machine together with the cached last message. */
  class ClipboardContext {
    const codec: Codec
    const files: bool
    var contents: seq<Data>
    var lastClips: seq<Clip>

    constructor (codec: Codec, files: bool)
      ensures this.codec == codec && this.files == files
      ensures contents == [] && lastClips == []
    {
      this.codec := codec;
      this.files := files;
      contents := [];
      lastClips := [];
    }

    method GetFormatsFilter(force: bool) returns (data: seq<Data>)
      ensures data == Filtered(Readable(files, contents), force)
      ensures data == if IsOwned(contents) && !force then [] else Synced(files, contents)
    {
      FilteredIs(files, contents, force);
      data := Readable(files, contents);
      if data == [] {
        return;
      }
      if !force {
        for i := 0 to |data|
          invariant forall j | 0 <= j < i :: !IsOwnerMark(data[j])
        {
          if IsOwnerMark(data[i]) {
            return [];
          }
        }
      }
      data := Filter(IsSent, data);
    }

    method Get(force: bool) returns (data: seq<Data>)
      ensures data == Fetched(files, contents, force)
      ensures data == if (IsOwned(contents) && !force) || (files && HasFiles(contents)) then []
                      else Synced(files, contents)
    {
      FetchedIs(files, contents, force);
      data := GetFormatsFilter(force);
      if exists i | 0 <= i < |data| :: data[i].FileUrl? {
        data := [];
      }
    }

    /** Sends the contents and caches the message; an empty reading, or one that fails, changes nothing. */
    method CheckClipboard(force: bool, readable: bool) returns (message: Option<seq<Clip>>)
      modifies this`lastClips
      ensures message == if readable then Checked(codec, files, contents, force) else None
      ensures message.None? <==>
                || !readable || (IsOwned(contents) && !force) || (files && HasFiles(contents))
                || Synced(files, contents) == []
      ensures message.Some? ==> message.value == ToClips(codec, Synced(files, contents))
      ensures lastClips == if message.Some? then message.value else old(lastClips)
    {
      CheckedIs(codec, files, contents, force);
      message := None;
      if readable {
        var data := Get(force);
        if data != [] {
          var clips := ToClips(codec, data);
          message := Some(clips);
          lastClips := clips;
        }
      }
    }

    /** Sets the message's data with the owner mark, unless there is none or the clipboard cannot be set. */
    method UpdateClipboard(clips: seq<Clip>, side: Side, settable: bool)
      modifies this`contents
      ensures contents == if settable then Updated(codec, old(contents), clips, side) else old(contents)
      ensures var data := FromClips(codec, clips);
              contents == if !settable || data == [] then old(contents)
                          else data + [Special("dyn.com.rustdesk.owner", if side == Host then [1] else [2])]
    {
      var data := FromClips(codec, clips);
      if data == [] {
        return;
      }
      data := data + [Special(OWNER, OwnerData(side))];
      if settable {
        contents := data;
      }
    }
  }

  /** The notification queues of the subscribers to clipboard changes. */
  class ClipboardListener {
    var pending: map<string, nat>

    constructor ()
      ensures pending == map[]
    {
      pending := map[];
    }

    method Subscribe(name: string)
      modifies this
      ensures pending == old(pending)[name := 0]
    {
      pending := pending[name := 0];
    }

    method Unsubscribe(name: string)
      modifies this
      ensures pending == old(pending) - {name}
    {
      pending := pending - {name};
    }

    /** Every subscriber is notified once. */
    method OnClipboardChange()
      modifies this
      ensures pending.Keys == old(pending).Keys
      ensures forall name | name in pending :: pending[name] == old(pending)[name] + 1
    {
      var names := pending.Keys;
      ghost var before := pending;
      while names != {}
        invariant names <= pending.Keys == before.Keys
        invariant forall name | name in pending ::
                    pending[name] == before[name] + (if name in names then 0 else 1)
        decreases |names|
      {
        var name :| name in names;
        names := names - {name};
        pending := pending[name := pending[name] + 1];
      }
    }
  }
}
