/** The chat page's client-side rules: how a pushed message is merged into
    the displayed list, when the send button does anything, which selected
    file is kept as the attachment, and which attachments are shown inline
    as images. */
module ChatClient {
  import opened JsValue
  import opened JsText

  // ---------------------------------------------------------------------------
  // The displayed message list

  /** A message as the page holds it. Messages from the history and from the
      send answer carry the database id; the `receive_message` push does not,
      so its id is absent. */
  datatype ClientMessage = ClientMessage(id: Option<nat>, content: string, filePath: Option<string>)

  /** Some message of `ms` has the id `id` (`msg._id === message._id`, where
      two absent ids compare equal). */
  predicate HasMessageId(ms: seq<ClientMessage>, id: Option<nat>) {
    exists i :: 0 <= i < |ms| && ms[i].id == id
  }

  /** No two displayed messages share an id. */
  predicate DistinctIds(ms: seq<ClientMessage>) {
    forall i, j :: 0 <= i < j < |ms| ==> ms[i].id != ms[j].id
  }

  /** The `receive_message` handler: append the pushed message unless one
      with the same id is already displayed. */
  function ReceiveMerge(prev: seq<ClientMessage>, m: ClientMessage): (r: seq<ClientMessage>)
    ensures HasMessageId(prev, m.id) ==> r == prev
    ensures !HasMessageId(prev, m.id) ==> |r| == |prev| + 1 && r[..|prev|] == prev && r[|prev|] == m
  {
    if HasMessageId(prev, m.id) then prev else prev + [m]
  }

  /** Receiving the same message twice shows it once. */
  lemma ReceiveIdempotent(prev: seq<ClientMessage>, m: ClientMessage)
    ensures ReceiveMerge(ReceiveMerge(prev, m), m) == ReceiveMerge(prev, m)
  {
    if !HasMessageId(prev, m.id) {
      assert ReceiveMerge(prev, m)[|prev|].id == m.id;
    }
  }

  /** After a push, a message with its id is displayed, and the list keeps
      its distinct ids. */
  lemma ReceiveKeepsDistinct(prev: seq<ClientMessage>, m: ClientMessage)
    requires DistinctIds(prev)
    ensures DistinctIds(ReceiveMerge(prev, m))
    ensures HasMessageId(ReceiveMerge(prev, m), m.id)
  {
    var r := ReceiveMerge(prev, m);
    if !HasMessageId(prev, m.id) {
      forall i, j | 0 <= i < j < |r| ensures r[i].id != r[j].id {
        if j == |prev| {
          assert r[i] == prev[i];
        } else {
          assert r[i] == prev[i] && r[j] == prev[j];
        }
      }
      assert r[|prev|] == m;
    }
  }

  /** A run of pushes, handled in arrival order. */
  function ReceiveAll(prev: seq<ClientMessage>, pushed: seq<ClientMessage>): (r: seq<ClientMessage>)
    ensures |prev| <= |r| <= |prev| + |pushed|
    ensures r[..|prev|] == prev
    decreases |pushed|
  {
    if |pushed| == 0 then prev else ReceiveAll(ReceiveMerge(prev, pushed[0]), pushed[1..])
  }

  /** Every pushed message's id ends up displayed exactly once. */
  lemma {:induction false} ReceiveAllDistinct(prev: seq<ClientMessage>, pushed: seq<ClientMessage>)
    requires DistinctIds(prev)
    ensures DistinctIds(ReceiveAll(prev, pushed))
    ensures forall k :: 0 <= k < |pushed| ==> HasMessageId(ReceiveAll(prev, pushed), pushed[k].id)
    decreases |pushed|
  {
    if |pushed| > 0 {
      var next := ReceiveMerge(prev, pushed[0]);
      ReceiveKeepsDistinct(prev, pushed[0]);
      ReceiveAllDistinct(next, pushed[1..]);
      var r := ReceiveAll(prev, pushed);
      forall k | 0 <= k < |pushed| ensures HasMessageId(r, pushed[k].id) {
        if k == 0 {
          var i :| 0 <= i < |next| && next[i].id == pushed[0].id;
          assert r[..|next|] == next;
          assert r[i] == next[i];
        } else {
          assert pushed[1..][k - 1] == pushed[k];
        }
      }
    }
  }

  /** The live push has no id, and every id-less message counts as the same
      message: once one is displayed, every later push is dropped. */
  lemma IdlessPushesCollapse(prev: seq<ClientMessage>, m: ClientMessage)
    requires m.id.None? && exists i :: 0 <= i < |prev| && prev[i].id.None?
    ensures ReceiveMerge(prev, m) == prev
  {
  }

  /** The sender's own view after a successful send: the answer's message is
      appended with no duplicate check. */
  function LocalAppend(prev: seq<ClientMessage>, sent: ClientMessage): (r: seq<ClientMessage>)
    ensures |r| == |prev| + 1 && r[..|prev|] == prev && r[|prev|] == sent
  {
    prev + [sent]
  }

  /** Unlike a push, the local append shows an id twice whenever the sent
      message's id is already displayed; it keeps distinct ids distinct only
      when it is not. */
  lemma LocalAppendDistinct(prev: seq<ClientMessage>, sent: ClientMessage)
    ensures HasMessageId(prev, sent.id) ==> !DistinctIds(LocalAppend(prev, sent))
    ensures DistinctIds(prev) && !HasMessageId(prev, sent.id) ==> DistinctIds(LocalAppend(prev, sent))
  {
    var r := LocalAppend(prev, sent);
    if HasMessageId(prev, sent.id) {
      var i :| 0 <= i < |prev| && prev[i].id == sent.id;
      assert r[i].id == r[|prev|].id;
    }
  }

  // ---------------------------------------------------------------------------
  // Sending

  /** The guard of `sendMessage`: nothing happens while an upload is running,
      nor when the text trims to nothing and no file is attached. */
  function CanSend(text: string, hasFile: bool, uploading: bool): (r: bool)
    ensures r <==> !uploading && (hasFile || !AllSpace(text))
  {
    TrimEmptyIffAllSpace(text);
    !((Trim(text) == "" && !hasFile) || uploading)
  }

  /** A text of spaces and line breaks alone is not sent, whatever its length. */
  lemma BlankTextNotSent(n: nat)
    ensures !CanSend(seq(n, i => ' '), false, false)
  {
  }

  // ---------------------------------------------------------------------------
  // Choosing an attachment

  datatype File = File(name: string, size: nat, mimetype: string)

  /** The page's attachment limit: 5 MB. */
  const ClientMaxBytes: nat := 5 * 1024 * 1024

  /** The attachment afterwards, and whether the size alert was shown. */
  datatype FileChoice = FileChoice(file: Option<File>, alerted: bool)

  /** `handleFileChange`: a selected file of at most 5 MB becomes the
      attachment. Otherwise (nothing selected, or too large) the alert is
      shown, the input is cleared, and the previous attachment stays. */
  function HandleFileChange(current: Option<File>, selected: Option<File>): (r: FileChoice)
    ensures r.alerted <==> selected.None? || selected.value.size > ClientMaxBytes
    ensures r.alerted ==> r.file == current
    ensures !r.alerted ==> r.file == selected
  {
    if selected.Some? && selected.value.size <= ClientMaxBytes then FileChoice(selected, false)
    else FileChoice(current, true)
  }

  /** An attachment within the limit stays within the limit. */
  predicate WithinLimit(f: Option<File>) {
    f.None? || f.value.size <= ClientMaxBytes
  }

  lemma HandleFileChangeKeepsLimit(current: Option<File>, selected: Option<File>)
    requires WithinLimit(current)
    ensures WithinLimit(HandleFileChange(current, selected).file)
  {
  }

  /** Exactly 5 MB is accepted; one byte more is refused. */
  lemma FileLimitBoundary(name: string, mime: string)
    ensures HandleFileChange(None, Some(File(name, 5242880, mime))).file == Some(File(name, 5242880, mime))
    ensures HandleFileChange(None, Some(File(name, 5242881, mime))).alerted
  {
  }

  // ---------------------------------------------------------------------------
  // Inline images

  /** The extensions shown inline, lower case and without the dot. */
  const ImageExts: set<string> := {"jpg", "jpeg", "png", "gif"}

  /** `filePath.match(/\.(jpg|jpeg|png|gif)$/i)`. */
  function IsImageAttachment(path: string): (r: bool)
    ensures r ==> '.' in path
  {
    EndsWithExtHasDot(path, ImageExts);
    EndsWithExt(path, ImageExts)
  }

  /** The match reads the text after the last dot: the attachment is shown
      inline exactly when that text, folded, is an image extension. */
  lemma ImageMatchIsLastDot(path: string)
    ensures IsImageAttachment(path) <==>
              (LastIndexOf(path, '.') >= 0 && Lower(path[LastIndexOf(path, '.') + 1..]) in ImageExts)
  {
    assert DotFree(ImageExts) by {
      forall e | e in ImageExts ensures '.' !in e {
        if e == "jpg" {} else if e == "jpeg" {} else if e == "png" {} else {}
      }
    }
    EndsWithExtIsLastDot(path, ImageExts);
  }

  /** The match ignores case and looks only at the last extension. */
  lemma ImageMatchExamples()
    ensures IsImageAttachment("a.JPG")
    ensures !IsImageAttachment("a.jpg.pdf")
  {
    UpperCaseImageMatches();
    LastExtensionDecides();
  }

  lemma UpperCaseImageMatches()
    ensures IsImageAttachment("a.JPG")
  {
    assert Lower("a.JPG") == "a.jpg";
    assert EndsWith(Lower("a.JPG"), "." + "jpg");
  }

  lemma LastExtensionDecides()
    ensures !IsImageAttachment("a.jpg.pdf")
  {
    var s := "a.jpg" + ['.'] + "pdf";
    assert s == "a.jpg.pdf";
    LastIndexOfJoin("a.jpg", '.', "pdf");
    assert s[LastIndexOf(s, '.') + 1..] == "pdf";
    assert Lower("pdf") == "pdf" && "pdf" !in ImageExts;
    ImageMatchIsLastDot(s);
  }
}
