/**
 * What one message item of the chat view shows, derived from the message's
 * facts: the status icon, the status tooltip, the encryption label, the body
 * text, the attachment status text and the sender string, and which of these
 * an update notification refreshes. All of it is pure; the item that holds the
 * widgets is `MessageList.MessageItem`.
 */
module MessageDisplay {
  import opened Wrappers
  import opened Text
  import opened Messages

  datatype Icon = PendingIcon | SentIcon | DeliveredIcon | ErrorIcon | WarningIcon

  // ---------------------------------------------------------------- status icon

  /**
   * The status icon after a status refresh, given the icon shown before
   * (`None`: none set yet). An outbound message whose single transmission was
   * received shows "delivered" whatever its stored status; otherwise its status
   * picks the icon, the legacy RECEIVED status sharing "delivered"; a status the
   * switch does not name leaves the icon alone. An inbound message ignores its
   * status: a coder error shows the warning icon, else the icon is left alone.
   */
  function StatusIcon(m: Message, current: Option<Icon>): (r: Option<Icon>)
    ensures r != current ==> r.Some?
    ensures m.dir == Outbound ==>
      (r == Some(DeliveredIcon) <==>
        m.DeliveredDate().Some? || m.status == Received || (m.status == OtherStatus && current == Some(DeliveredIcon)))
    ensures m.dir == Outbound && m.DeliveredDate().None? && m.status != OtherStatus ==> r.Some? && r.value != WarningIcon
    ensures m.dir == Outbound && m.DeliveredDate().None? ==>
      (m.status == Pending ==> r == Some(PendingIcon)) && (m.status == Sent ==> r == Some(SentIcon))
      && (m.status == Error ==> r == Some(ErrorIcon)) && (m.status == OtherStatus ==> r == current)
    ensures m.dir == Inbound ==> (r == Some(WarningIcon) <==> |m.coderErrors| > 0 || current == Some(WarningIcon))
    ensures m.dir == Inbound && m.coderErrors == [] ==> r == current
  {
    if m.dir == Outbound then
      if m.DeliveredDate().Some? then Some(DeliveredIcon)
      else
        match m.status
        case Pending => Some(PendingIcon)
        case Sent => Some(SentIcon)
        case Received => Some(DeliveredIcon)
        case Error => Some(ErrorIcon)
        case OtherStatus => current
    else if |m.coderErrors| > 0 then Some(WarningIcon)
    else current
  }

  /** An acknowledged transmission overrides whatever status is stored. */
  lemma DeliveredDateOverridesStatus(m: Message, s: Status, current: Option<Icon>)
    requires m.dir == Outbound && m.DeliveredDate().Some?
    ensures StatusIcon(m.(status := s), current) == StatusIcon(m, current) == Some(DeliveredIcon)
  {
  }

  /** The icon of an inbound message does not depend on its delivery status. */
  lemma InboundIconIgnoresStatus(m: Message, s: Status, current: Option<Icon>)
    requires m.dir == Inbound
    ensures StatusIcon(m.(status := s), current) == StatusIcon(m, current)
  {
  }

  /** Refreshing the icon a second time with the same facts changes nothing. */
  lemma StatusIconIdempotent(m: Message, current: Option<Icon>)
    ensures StatusIcon(m, StatusIcon(m, current)) == StatusIcon(m, current)
  {
  }

  // ---------------------------------------------------------------- tooltip

  /** The date an outbound tooltip reports: the acknowledgement date, else the server date. */
  function StatusDate(m: Message): (r: Option<Date>)
    ensures m.DeliveredDate().Some? ==> r == m.DeliveredDate()
    ensures m.DeliveredDate().None? ==> r == m.serverDate
  {
    if m.DeliveredDate().Some? then m.DeliveredDate() else m.serverDate
  }

  /** The label in front of an outbound tooltip's status date (`None`: no status line). */
  function StatusLabel(m: Message): (r: Option<string>)
    ensures r == Some("Delivered:") <==> m.DeliveredDate().Some? || m.status == Received
    ensures r.None? <==> m.DeliveredDate().None? && (m.status == Pending || m.status == OtherStatus)
    ensures r == Some("Sent:") <==> m.DeliveredDate().None? && m.status == Sent
    ensures r == Some("Error report:") <==> m.DeliveredDate().None? && m.status == Error
  {
    if m.DeliveredDate().Some? then Some("Delivered:")
    else
      match m.status
      case Pending => None
      case Sent => Some("Sent:")
      case Received => Some("Delivered:")
      case Error => Some("Error report:")
      case OtherStatus => None
  }

  /**
   * The status icon and the tooltip's status label are two switches over the
   * same facts; for every status the icon switch names they agree.
   */
  lemma IconMatchesStatusLabel(m: Message, current: Option<Icon>)
    requires m.dir == Outbound && m.status != OtherStatus
    ensures StatusLabel(m) == Some("Delivered:") <==> StatusIcon(m, current) == Some(DeliveredIcon)
    ensures StatusLabel(m) == Some("Sent:") <==> StatusIcon(m, current) == Some(SentIcon)
    ensures StatusLabel(m) == Some("Error report:") <==> StatusIcon(m, current) == Some(ErrorIcon)
    ensures StatusLabel(m).None? <==> StatusIcon(m, current) == Some(PendingIcon)
  {
  }

  /** One line of the status tooltip. */
  datatype TipLine =
    | CreatedLine(date: string)
    | StatusLine(caption: string, date: string)
    | SentLine(date: string)
    | ReceivedLine(date: string)
    | EncryptionLine(security: string)
    | SecurityErrorsLine(errors: seq<string>)
    | ServerErrorLine(text: string)

  function FormatOpt(d: Option<Date>, fmt: DateFormat): (r: Option<string>)
    ensures r.Some? <==> d.Some?
    ensures d.Some? ==> r.value == fmt(d.value)
  {
    match d
    case Some(x) => Some(fmt(x))
    case None => None
  }

  /**
   * The date lines of an outbound tooltip: "Created:" unless the creation date
   * formats the same as the status date (an absent status date never does),
   * then the status line when there is both a label and a date.
   */
  function OutboundLines(m: Message, fmt: DateFormat): (r: seq<TipLine>)
    ensures |r| <= 2
    ensures forall l :: l in r ==> l.CreatedLine? || l.StatusLine?
    ensures CreatedLine(fmt(m.date)) in r <==> FormatOpt(StatusDate(m), fmt) != Some(fmt(m.date))
    ensures forall l :: l in r && l.CreatedLine? ==> l == CreatedLine(fmt(m.date))
    ensures (exists l :: l in r && l.StatusLine?) <==> StatusLabel(m).Some? && StatusDate(m).Some?
    ensures forall l :: l in r && l.StatusLine? ==>
      Some(l.caption) == StatusLabel(m) && Some(l.date) == FormatOpt(StatusDate(m), fmt)
    ensures |r| == 2 ==> r[0].CreatedLine? && r[1].StatusLine?
  {
    var status := FormatOpt(StatusDate(m), fmt);
    var create := fmt(m.date);
    var created := if Some(create) != status then [CreatedLine(create)] else [];
    var statusLine := if status.Some? && StatusLabel(m).Some? then [StatusLine(StatusLabel(m).value, status.value)] else [];
    var r := created + statusLine;
    assert statusLine != [] ==> r[|r| - 1] in r && r[|r| - 1].StatusLine?;
    r
  }

  /** With an acknowledged transmission the tooltip always reports "Delivered:" at that date. */
  lemma DeliveredTooltip(m: Message, fmt: DateFormat)
    requires m.dir == Outbound && m.DeliveredDate().Some?
    ensures StatusLine("Delivered:", fmt(m.DeliveredDate().value)) in OutboundLines(m, fmt)
  {
    var r := OutboundLines(m, fmt);
    assert r[|r| - 1] == StatusLine("Delivered:", fmt(m.DeliveredDate().value));
  }

  /**
   * The date lines of an inbound tooltip: "Sent:" when there is a server date
   * that formats differently from the receipt date, then always "Received:".
   */
  function InboundLines(m: Message, fmt: DateFormat): (r: seq<TipLine>)
    ensures 1 <= |r| <= 2 && r[|r| - 1] == ReceivedLine(fmt(m.date))
    ensures (exists l :: l in r && l.SentLine?) <==> m.serverDate.Some? && fmt(m.serverDate.value) != fmt(m.date)
    ensures |r| == 2 ==> m.serverDate.Some? && r[0] == SentLine(fmt(m.serverDate.value))
  {
    var rec := fmt(m.date);
    var sent := if m.serverDate.Some? && fmt(m.serverDate.value) != rec then [SentLine(fmt(m.serverDate.value))] else [];
    var r := sent + [ReceivedLine(rec)];
    assert sent != [] ==> r[0] in r && r[0].SentLine?;
    r
  }

  /** The date lines of the tooltip. */
  function DateLines(m: Message, fmt: DateFormat): (r: seq<TipLine>)
    ensures forall l :: l in r ==> l.CreatedLine? || l.StatusLine? || l.SentLine? || l.ReceivedLine?
    ensures m.dir == Inbound ==> ReceivedLine(fmt(m.date)) in r
    ensures m.dir == Outbound ==> r == OutboundLines(m, fmt)
    ensures m.dir == Inbound ==> r == InboundLines(m, fmt)
  {
    if m.dir == Outbound then OutboundLines(m, fmt) else InboundLines(m, fmt)
  }

  /** The error lines that close the tooltip: the coder's security errors, then the server error. */
  function ErrorLines(m: Message): (r: seq<TipLine>)
    ensures forall l :: l in r ==> l.SecurityErrorsLine? || l.ServerErrorLine?
    ensures (exists l :: l in r && l.SecurityErrorsLine?) <==> |m.coderErrors| > 0
    ensures (exists l :: l in r && l.ServerErrorLine?) <==> m.serverError != ""
    ensures |r| == (if |m.coderErrors| > 0 then 1 else 0) + (if m.serverError != "" then 1 else 0)
    ensures |m.coderErrors| > 0 ==> r[0] == SecurityErrorsLine(m.coderErrors)
    ensures m.serverError != "" ==> r[|r| - 1] == ServerErrorLine(m.serverError)
  {
    var errors := if |m.coderErrors| > 0 then [SecurityErrorsLine(m.coderErrors)] else [];
    var server := if m.serverError != "" then [ServerErrorLine(m.serverError)] else [];
    var r := errors + server;
    assert errors != [] ==> r[0] in r && r[0].SecurityErrorsLine?;
    assert server != [] ==> r[|r| - 1] in r && r[|r| - 1].ServerErrorLine?;
    r
  }

  /** The whole status tooltip, line by line: dates, the encryption label, then the errors. */
  function TooltipLines(m: Message, fmt: DateFormat): (r: seq<TipLine>)
    ensures var k := |DateLines(m, fmt)|;
      k < |r| && r[..k] == DateLines(m, fmt)
      && r[k] == EncryptionLine(EncryptionLabel(m.dir, m.encryption, m.signing))
      && r[k + 1..] == ErrorLines(m)
  {
    var dates, tail := DateLines(m, fmt), ErrorLines(m);
    var enc := EncryptionLine(EncryptionLabel(m.dir, m.encryption, m.signing));
    var r := dates + [enc] + tail;
    assert r[..|dates|] == dates && r[|dates| + 1..] == tail;
    r
  }

  /**
   * The tooltip always names the encryption state and, for an inbound message,
   * the receipt date; it lists security errors exactly when the coder reported
   * some, and a server error exactly when there is one.
   */
  lemma TooltipLinesMention(m: Message, fmt: DateFormat)
    ensures EncryptionLine(EncryptionLabel(m.dir, m.encryption, m.signing)) in TooltipLines(m, fmt)
    ensures m.dir == Inbound ==> ReceivedLine(fmt(m.date)) in TooltipLines(m, fmt)
    ensures (exists l :: l in TooltipLines(m, fmt) && l.SecurityErrorsLine?) <==> |m.coderErrors| > 0
    ensures (exists l :: l in TooltipLines(m, fmt) && l.ServerErrorLine?) <==> m.serverError != ""
  {
    var dates, tail := DateLines(m, fmt), ErrorLines(m);
    var r := TooltipLines(m, fmt);
    var k := |dates|;
    assert r == dates + [r[k]] + tail by {
      assert r == r[..k] + [r[k]] + r[k + 1..];
    }
    if m.dir == Inbound {
      assert r[k - 1] == dates[k - 1];
    }
    if |m.coderErrors| > 0 {
      assert r[k + 1] == tail[0];
    }
    if m.serverError != "" {
      assert r[|r| - 1] == tail[|tail| - 1];
    }
    forall l | l in r && (l.SecurityErrorsLine? || l.ServerErrorLine?)
      ensures l in tail
    {
      if l in dates {
        assert false;
      }
    }
  }

  /** The separator after each security error and after the server error. */
  const SpacedBreak := " <br> "

  /** The text ends with a line break, `<br>` or `<br> `. */
  predicate EndsWithBreak(t: string) {
    (|t| >= 4 && t[|t| - 4..] == "<br>") || (|t| >= 6 && t[|t| - 6..] == SpacedBreak)
  }

  /** The security errors, each followed by a line break: empty exactly when there are none. */
  function ErrorsHtml(errors: seq<string>): (r: string)
    ensures r == "" <==> errors == []
    ensures errors != [] ==> |r| >= 6 && r[|r| - 6..] == SpacedBreak
  {
    if errors == [] then ""
    else
      var rest := ErrorsHtml(errors[1..]);
      var r := errors[0] + SpacedBreak + rest;
      assert rest != [] ==> r[|r| - 6..] == rest[|rest| - 6..];
      r
  }

  /** The security errors text as the status refresh accumulates it, error by error. */
  method CollectErrors(errors: seq<string>) returns (s: string)
    ensures s == ErrorsHtml(errors)
  {
    s := "";
    var i := 0;
    while i < |errors|
      invariant 0 <= i <= |errors|
      invariant s + ErrorsHtml(errors[i..]) == ErrorsHtml(errors)
    {
      assert errors[i..][1..] == errors[i + 1..];
      ConcatRegroup(s, errors[i], SpacedBreak, ErrorsHtml(errors[i + 1..]));
      s := s + errors[i] + SpacedBreak;
      i := i + 1;
    }
  }

  /** One tooltip line as HTML: never empty, and closed by a line break unless it lists no security error. */
  function LineHtml(l: TipLine): (r: string)
    ensures r != ""
    ensures !(l.SecurityErrorsLine? && l.errors == []) ==> EndsWithBreak(r)
  {
    match l
    case CreatedLine(d) => "Created: " + d + "<br>"
    case StatusLine(caption, d) => caption + " " + d + "<br>"
    case SentLine(d) => "Sent: " + d + "<br>"
    case ReceivedLine(d) => "Received: " + d + "<br>"
    case EncryptionLine(sec) => "Encryption: " + sec + "<br>"
    case SecurityErrorsLine(errors) =>
      var e := ErrorsHtml(errors);
      var r := "Security errors: " + e;
      assert errors != [] ==> r[|r| - 6..] == e[|e| - 6..];
      r
    case ServerErrorLine(text) => "Server error: " + text + SpacedBreak
  }

  /** The lines as HTML, one after the other: empty exactly when there are no lines. */
  function LinesHtml(ls: seq<TipLine>): (r: string)
    ensures r == "" <==> ls == []
  {
    if ls == [] then "" else LineHtml(ls[0]) + LinesHtml(ls[1..])
  }

  /** The HTML of two runs of lines is the HTML of the first followed by that of the second. */
  lemma {:induction false} LinesHtmlAppend(a: seq<TipLine>, b: seq<TipLine>)
    ensures LinesHtml(a + b) == LinesHtml(a) + LinesHtml(b)
  {
    if a == [] {
      assert a + b == b;
    } else {
      assert (a + b)[0] == a[0] && (a + b)[1..] == a[1..] + b;
      LinesHtmlAppend(a[1..], b);
    }
  }

  /** The fixed start of the status tooltip. */
  const TooltipHeader := "<html><body><br>"

  /** The tooltip as the HTML text handed to the tooltip manager: the header, then the tooltip lines. */
  function TooltipHtml(m: Message, fmt: DateFormat): (r: string)
    ensures |r| > |TooltipHeader| && r[..|TooltipHeader|] == TooltipHeader
  {
    var lines := LinesHtml(TooltipLines(m, fmt));
    var r := TooltipHeader + lines;
    assert r[..|TooltipHeader|] == TooltipHeader;
    r
  }

  /**
   * The tooltip is the text the status refresh accumulates: the header, the
   * date lines, the encryption line, the security errors when their rendered
   * text is not empty, and the server error when there is one.
   */
  lemma TooltipHtmlAccumulates(m: Message, fmt: DateFormat)
    ensures TooltipHtml(m, fmt) == TooltipHeader + LinesHtml(DateLines(m, fmt))
      + "Encryption: " + EncryptionLabel(m.dir, m.encryption, m.signing) + "<br>"
      + (if ErrorsHtml(m.coderErrors) != "" then "Security errors: " + ErrorsHtml(m.coderErrors) else "")
      + (if m.serverError != "" then "Server error: " + m.serverError + SpacedBreak else "")
  {
    var sec := EncryptionLabel(m.dir, m.encryption, m.signing);
    var errors := if ErrorsHtml(m.coderErrors) != "" then "Security errors: " + ErrorsHtml(m.coderErrors) else "";
    var server := if m.serverError != "" then "Server error: " + m.serverError + SpacedBreak else "";
    TooltipLinesHtml(m, fmt);
    ErrorLinesHtml(m);
    ConcatAssoc(TooltipHeader, LinesHtml(DateLines(m, fmt)) + "Encryption: " + sec + "<br>", errors, server);
    ConcatAssoc4(TooltipHeader, LinesHtml(DateLines(m, fmt)), "Encryption: ", sec, "<br>");
  }

  /** Regrouping a concatenation of four strings. */
  lemma ConcatAssoc(a: string, b: string, c: string, d: string)
    ensures a + (b + (c + d)) == a + b + c + d
  {
  }

  /** Regrouping a concatenation of five strings. */
  lemma ConcatAssoc4(a: string, b: string, c: string, d: string, e: string)
    ensures a + (b + c + d + e) == a + b + c + d + e
  {
  }

  /** The tooltip lines as HTML: the date lines, the encryption line, then the error lines. */
  lemma TooltipLinesHtml(m: Message, fmt: DateFormat)
    ensures LinesHtml(TooltipLines(m, fmt)) == LinesHtml(DateLines(m, fmt))
      + "Encryption: " + EncryptionLabel(m.dir, m.encryption, m.signing) + "<br>" + LinesHtml(ErrorLines(m))
  {
    var dates, tail := DateLines(m, fmt), ErrorLines(m);
    var enc := EncryptionLine(EncryptionLabel(m.dir, m.encryption, m.signing));
    var lines := TooltipLines(m, fmt);
    SplitAround(lines, |dates|);
    LinesHtmlAppend(dates + [enc], tail);
    LinesHtmlAppend(dates, [enc]);
    assert LinesHtml([enc]) == LineHtml(enc) by {
      assert [enc][1..] == [];
    }
    ConcatRegroup(LinesHtml(dates), "Encryption: ", enc.security, "<br>");
  }

  /** Regrouping a concatenation of four strings, the last three nested. */
  lemma ConcatRegroup(a: string, b: string, c: string, d: string)
    ensures a + (b + c + d) == a + b + c + d
  {
  }

  lemma SplitAround<T>(s: seq<T>, k: int)
    requires 0 <= k < |s|
    ensures s == s[..k] + [s[k]] + s[k + 1..]
  {
  }

  /** The error lines as HTML: the security errors when there are any, then the server error when there is one. */
  lemma ErrorLinesHtml(m: Message)
    ensures LinesHtml(ErrorLines(m)) ==
      (if ErrorsHtml(m.coderErrors) != "" then "Security errors: " + ErrorsHtml(m.coderErrors) else "")
      + (if m.serverError != "" then "Server error: " + m.serverError + SpacedBreak else "")
  {
    var errors := if |m.coderErrors| > 0 then [SecurityErrorsLine(m.coderErrors)] else [];
    var server := if m.serverError != "" then [ServerErrorLine(m.serverError)] else [];
    assert ErrorLines(m) == errors + server;
    LinesHtmlAppend(errors, server);
    if errors != [] {
      assert errors[1..] == [];
    }
    if server != [] {
      assert server[1..] == [];
    }
  }

  // ---------------------------------------------------------------- encryption label

  function EncryptionWord(e: Encryption): (r: string)
    ensures '/' !in r
    ensures r == "Unknown" <==> e == UnknownEncryption
  {
    match e
    case NotEncrypted => "Not encrypted"
    case Encrypted => "Encrypted"
    case Decrypted => "Decrypted"
    case UnknownEncryption => "Unknown"
  }

  function SigningWord(s: Signing): (r: string)
    ensures '/' !in r
    ensures r == "Unknown" <==> s == UnknownSigning
  {
    match s
    case NotSigned => "Not signed"
    case Signed => "Signed"
    case Verified => "Verified"
    case UnknownSigning => "Unknown"
  }

  /**
   * The security part of the tooltip: "Not encrypted" exactly when neither
   * encrypted nor signed; "Secure" exactly when decrypted and signed by us
   * (outbound) or verified (inbound); every other combination spelled out as
   * "<encryption> / <signing>".
   */
  function EncryptionLabel(dir: Direction, e: Encryption, s: Signing): (r: string)
    ensures r == "Not encrypted" <==> e == NotEncrypted && s == NotSigned
    ensures r == "Secure" <==>
      e == Decrypted && ((dir == Outbound && s == Signed) || (dir == Inbound && s == Verified))
    ensures r != "Not encrypted" && r != "Secure" ==> r == EncryptionWord(e) + " / " + SigningWord(s)
  {
    if e == NotEncrypted && s == NotSigned then "Not encrypted"
    else if e == Decrypted && ((dir == Outbound && s == Signed) || (dir == Inbound && s == Verified)) then "Secure"
    else
      var r := EncryptionWord(e) + " / " + SigningWord(s);
      assert r[|EncryptionWord(e)|..|EncryptionWord(e)| + 3] == " / ";
      r
  }

  /** A spelled-out label names both modes, so it tells every unusual combination apart. */
  lemma VerboseLabelDeterminesModes(dir: Direction, e1: Encryption, s1: Signing, e2: Encryption, s2: Signing)
    requires EncryptionLabel(dir, e1, s1) == EncryptionLabel(dir, e2, s2)
    requires EncryptionLabel(dir, e1, s1) != "Not encrypted" && EncryptionLabel(dir, e1, s1) != "Secure"
    ensures e1 == e2 && s1 == s2
  {
    SplitAtSeparator(EncryptionWord(e1), SigningWord(s1), EncryptionWord(e2), SigningWord(s2));
  }

  /** "<w> / <t>" with no '/' in w determines w and t. */
  lemma SplitAtSeparator(w1: string, t1: string, w2: string, t2: string)
    requires '/' !in w1 && '/' !in w2
    requires w1 + " / " + t1 == w2 + " / " + t2
    ensures w1 == w2 && t1 == t2
  {
    var r := w1 + " / " + t1;
    if |w1| < |w2| {
      NoSlashBeforeSeparator(w2, t2, |w1| + 1);
      assert false;
    } else if |w2| < |w1| {
      NoSlashBeforeSeparator(w1, t1, |w2| + 1);
      assert false;
    }
    assert w1 == r[..|w1|] == w2;
    assert t1 == r[|w1| + 3..] == t2;
  }

  /** In "<w> / <t>" with no '/' in w, the separator holds the first '/'. */
  lemma NoSlashBeforeSeparator(w: string, t: string, k: int)
    requires '/' !in w && 0 <= k <= |w|
    ensures (w + " / " + t)[k] != '/'
  {
    if k < |w| {
      assert (w + " / " + t)[k] == w[k] && w[k] in w;
    }
  }

  // ---------------------------------------------------------------- body text

  const EncryptedPlaceholder: string := "[encrypted]"

  /**
   * The body text: the "[encrypted]" placeholder while the message is still
   * encrypted, else the text without surrounding white space, followed by
   * " <command>" for a group command.
   */
  function DisplayText(m: Message): (r: string)
    ensures m.IsEncrypted() ==> |r| >= |EncryptedPlaceholder| && r[..|EncryptedPlaceholder|] == EncryptedPlaceholder
    ensures !m.IsEncrypted() ==> |r| >= |Trim(m.text)| && r[..|Trim(m.text)|] == Trim(m.text)
    ensures m.groupCommand.Some? ==>
      var c := m.groupCommand.value; |r| > |c| && r[|r| - |c| - 1..] == " " + c
    ensures m.groupCommand.None? ==> |r| == if m.IsEncrypted() then |EncryptedPlaceholder| else |Trim(m.text)|
    ensures m.groupCommand.Some? ==>
      |r| == (if m.IsEncrypted() then |EncryptedPlaceholder| else |Trim(m.text)|) + 1 + |m.groupCommand.value|
  {
    var base := if m.IsEncrypted() then EncryptedPlaceholder else Trim(m.text);
    var r := WithCommand(base, m.groupCommand);
    assert m.groupCommand.Some? ==> |r| - |m.groupCommand.value| - 1 == |base|;
    r
  }

  /** A text followed, for a group command, by a space and the command. */
  function WithCommand(base: string, command: Option<string>): (r: string)
    ensures |r| >= |base| && r[..|base|] == base
    ensures command.Some? ==> |r| == |base| + 1 + |command.value| && r[|base|..] == " " + command.value
    ensures command.None? ==> r == base
  {
    match command
    case Some(c) =>
      var r := base + " " + c;
      assert r[..|base|] == base && r[|base|..] == " " + c;
      r
    case None => base
  }

  /** The text pane is hidden exactly when a decrypted message without group command trims to nothing. */
  lemma TextHiddenIff(m: Message)
    ensures DisplayText(m) == "" <==> !m.IsEncrypted() && m.groupCommand.None? && Trim(m.text) == ""
  {
  }

  // ---------------------------------------------------------------- attachment status

  /**
   * The attachment status text for a download progress code: -1 "stalled",
   * 0 and -2 "downloading...", -3 "download failed", anything else "loading...".
   */
  function ProgressText(code: int): (r: string)
    ensures r == "stalled" <==> code == -1
    ensures r == "downloading..." <==> code == 0 || code == -2
    ensures r == "download failed" <==> code == -3
    ensures r == "loading..." <==> code != -1 && code != 0 && code != -2 && code != -3
  {
    if code == -1 then "stalled"
    else if code == 0 || code == -2 then "downloading..."
    else if code == -3 then "download failed"
    else "loading..."
  }

  // ---------------------------------------------------------------- sender

  const MaxJidLength: nat := 40
  const ShortJidLength: nat := 8

  /**
   * The sender of an inbound message: the contact's name, or, when it has
   * none, the bare JID, shortened to its first 8 characters and "..." when it
   * is longer than 40 UTF-16 code units.
   */
  function FromString(m: Message): (r: string)
    ensures m.senderName != "" ==> r == m.senderName
    ensures m.senderName == "" ==> '/' !in r && Utf16Length(r) <= MaxJidLength
    ensures m.senderName == "" ==> (r == BareJid(m.senderJid) <==> Utf16Length(BareJid(m.senderJid)) <= MaxJidLength)
    ensures m.senderName == "" && r != BareJid(m.senderJid) ==>
      |r| == ShortJidLength + 3 && r[..ShortJidLength] == m.senderJid[..ShortJidLength] && r[ShortJidLength..] == "..."
  {
    if m.senderName != "" then m.senderName
    else
      var from := BareJid(m.senderJid);
      if Utf16Length(from) > MaxJidLength then
        var short := from[..ShortJidLength];
        var r := short + "...";
        Utf16LengthAppend(short, "...");
        assert r[..ShortJidLength] == short == m.senderJid[..ShortJidLength];
        assert r[ShortJidLength..] == "...";
        assert '/' !in short by {
          PrefixMembers(from, ShortJidLength);
        }
        r
      else from
  }

  /** A prefix holds only elements of the whole. */
  lemma PrefixMembers<T>(s: seq<T>, n: nat)
    requires n <= |s|
    ensures forall x :: x in s[..n] ==> x in s
  {
    assert s == s[..n] + s[n..];
  }

  // ---------------------------------------------------------------- update dispatch

  /** What a change notification names: the argument's kind (`None` in an `Option` is Java's `null`). */
  datatype Delta = ContactDelta | TextDelta | StatusDelta | AttachmentDelta | PreviewDelta | OtherDelta

  /** The parts of an item a refresh can redo. */
  datatype Part = FromPart | TextPart | StatusPart | AttachmentPart

  /**
   * The parts an update refreshes: `null` all four; a contact only the sender,
   * a string only the text, a status only the status, an attachment or a
   * preview only the attachment; anything else none.
   */
  function RefreshedParts(arg: Option<Delta>): (r: set<Part>)
    ensures arg.Some? ==> forall p, q :: p in r && q in r ==> p == q
    ensures r == {} <==> arg == Some(OtherDelta)
    ensures FromPart in r <==> arg.None? || arg == Some(ContactDelta)
    ensures TextPart in r <==> arg.None? || arg == Some(TextDelta)
    ensures StatusPart in r <==> arg.None? || arg == Some(StatusDelta)
    ensures AttachmentPart in r <==> arg.None? || arg == Some(AttachmentDelta) || arg == Some(PreviewDelta)
  {
    match arg
    case None =>
      {FromPart, TextPart, StatusPart, AttachmentPart}
    case Some(ContactDelta) => {FromPart}
    case Some(TextDelta) => {TextPart}
    case Some(StatusDelta) => {StatusPart}
    case Some(AttachmentDelta) => {AttachmentPart}
    case Some(PreviewDelta) => {AttachmentPart}
    case Some(OtherDelta) => {}
  }

  /**
   * The widget facts of an item other than its attachment panel: the sender
   * label (`None`: there is no such label), the text and whether it is shown
   * in italics and at all, the status icon and the tooltip.
   */
  datatype ItemView = ItemView(
    from: Option<string>,
    text: string,
    italic: bool,
    textVisible: bool,
    icon: Option<Icon>,
    tooltip: string)

  /** The view an item shows right after its content is built, before the first refresh. */
  function BlankView(m: Message): (r: ItemView)
    ensures r.from.Some? <==> m.dir == Inbound
    ensures r.icon.None?
  {
    ItemView(if m.dir == Inbound then Some("") else None, "", false, true, None, "???")
  }

  /** The view after an update with argument `arg` on a built item whose message has facts `m`. */
  function Refresh(v: ItemView, m: Message, fmt: DateFormat, arg: Option<Delta>): (r: ItemView)
    ensures r.from.Some? <==> v.from.Some?
    ensures FromPart !in RefreshedParts(arg) || v.from.None? || m.dir == Outbound ==> r.from == v.from
    ensures FromPart in RefreshedParts(arg) && v.from.Some? && m.dir == Inbound ==> r.from == Some(" " + FromString(m))
    ensures TextPart !in RefreshedParts(arg) ==> (r.text, r.italic, r.textVisible) == (v.text, v.italic, v.textVisible)
    ensures TextPart in RefreshedParts(arg) ==>
      r.text == DisplayText(m) && r.italic == m.IsEncrypted() && (r.textVisible <==> r.text != "")
    ensures StatusPart !in RefreshedParts(arg) ==> r.icon == v.icon && r.tooltip == v.tooltip
    ensures StatusPart in RefreshedParts(arg) ==> r.icon == StatusIcon(m, v.icon) && r.tooltip == TooltipHtml(m, fmt)
  {
    var parts := RefreshedParts(arg);
    var v1 := if FromPart in parts && v.from.Some? && m.dir == Inbound then v.(from := Some(" " + FromString(m))) else v;
    var t := DisplayText(m);
    var v2 := if TextPart in parts then v1.(text := t, italic := m.IsEncrypted(), textVisible := t != "") else v1;
    if StatusPart in parts then v2.(icon := StatusIcon(m, v2.icon), tooltip := TooltipHtml(m, fmt)) else v2
  }

  /** A `null` update is the contact, text and status updates one after the other. */
  lemma NullRefreshIsEveryKind(v: ItemView, m: Message, fmt: DateFormat)
    ensures Refresh(v, m, fmt, None) ==
      Refresh(Refresh(Refresh(v, m, fmt, Some(ContactDelta)), m, fmt, Some(TextDelta)), m, fmt, Some(StatusDelta))
  {
  }

  /** Refreshing twice from the same facts shows what refreshing once shows. */
  lemma RefreshIdempotent(v: ItemView, m: Message, fmt: DateFormat, arg: Option<Delta>)
    ensures Refresh(Refresh(v, m, fmt, arg), m, fmt, arg) == Refresh(v, m, fmt, arg)
  {
    StatusIconIdempotent(m, v.icon);
  }
}
