/**
 The status-line recorder: it appends a line to the account's log when a session's meter windows
 moved since the session's last-value file was written.
 */
module Statusline {
  import opened Common
  import opened Orders

  // ---------------------------------------------------------------- payloads

  /** A number as spelled, its value, and the whole number it is, if it is one. */
  datatype Num = Num(spelling: string, value: real, integer: Option<int>)

  datatype Json =
    | Null
    | Boolean(flag: bool)
    | Number(number: Num)
    | Text(text: string)
    | Array(items: seq<Json>)
    | Object(members: map<string, Json>)

  function Member(json: Json, name: string): Option<Json> {
    if json.Object? && name in json.members then Some(json.members[name]) else None
  }

  function NonEmptyText(json: Option<Json>): Option<string> {
    if json.Some? && json.value.Text? && json.value.text != "" then Some(json.value.text) else None
  }

  function OrElse<T>(first: Option<T>, second: Option<T>): Option<T> {
    if first.Some? then first else second
  }

  /** One admitted window: the percentage as the payload spelled it, and the reset instant. */
  datatype Window = Window(used: Num, resetsAt: Option<int>)

  type Windows = map<string, Window>

  /** The reset instant: a text that parses, or a whole number. */
  function ResetsAt(entry: Json, parse: string -> Option<int>): Option<int> {
    match Member(entry, "resets_at")
    case Some(Text(text)) => parse(text)
    case Some(Number(number)) => number.integer
    case _ => None
  }

  /** Admission is by shape: an object with a numeric percentage. */
  function AdmittedWindow(entry: Json, parse: string -> Option<int>): Option<Window> {
    match Member(entry, "used_percentage")
    case Some(Number(number)) => Some(Window(number, ResetsAt(entry, parse)))
    case _ => None
  }

  function AdmittedWindows(entries: map<string, Json>, parse: string -> Option<int>): Windows {
    map name | name in entries && AdmittedWindow(entries[name], parse).Some? ::
      AdmittedWindow(entries[name], parse).value
  }

  /** Keeps the admitted entries, one by one. */
  method AdmitWindows(entries: map<string, Json>, parse: string -> Option<int>) returns (windows: Windows)
    ensures windows == AdmittedWindows(entries, parse)
  {
    windows := map[];
    var pending := entries.Keys;
    while pending != {}
      invariant pending <= entries.Keys
      invariant forall name :: name in windows <==>
        name in entries && name !in pending && AdmittedWindow(entries[name], parse).Some?
      invariant forall name :: name in windows ==> windows[name] == AdmittedWindow(entries[name], parse).value
      decreases |pending|
    {
      var name :| name in pending;
      pending := pending - {name};
      match AdmittedWindow(entries[name], parse)
      case None =>
      case Some(window) => windows := windows[name := window];
    }
  }

  // ---------------------------------------------------------------- what is compared

  datatype Reading = Reading(used: real, resetsAt: Option<int>)

  type Readings = map<string, Reading>

  function WindowJson(window: Window): Json {
    Object(map[
      "used_percentage" := Number(window.used),
      "resets_at" := match window.resetsAt
                     case Some(at) => Number(Num("", at as real, Some(at)))
                     case None => Null])
  }

  /** The windows as they are written to a file. */
  function WindowsJson(windows: Windows): Json {
    Object(map name | name in windows :: WindowJson(windows[name]))
  }

  function ReadingOf(entry: Json): Option<Reading> {
    match Member(entry, "used_percentage")
    case Some(Number(used)) =>
      Some(Reading(used.value, match Member(entry, "resets_at") case Some(Number(at)) => at.integer case _ => None))
    case _ => None
  }

  /** A value read back in comparable form; nothing when it is not an object of readings. */
  function ReadingsOf(json: Json): Option<Readings> {
    if json.Object? && forall name :: name in json.members ==> ReadingOf(json.members[name]).Some?
    then Some(map name | name in json.members :: ReadingOf(json.members[name]).value)
    else None
  }

  function Compared(windows: Windows): Readings {
    map name | name in windows :: Reading(windows[name].used.value, windows[name].resetsAt)
  }

  lemma WindowReadsBack(window: Window)
    ensures ReadingOf(WindowJson(window)) == Some(Reading(window.used.value, window.resetsAt))
  {
    var members := WindowJson(window).members;
    assert "used_percentage"[0] != "resets_at"[0];
    assert members["used_percentage"] == Number(window.used);
  }

  /** Windows written to a file read back as the readings they are compared by. */
  lemma WindowsReadBack(windows: Windows)
    ensures ReadingsOf(WindowsJson(windows)) == Some(Compared(windows))
  {
    hide ReadingOf, WindowJson;
    var members := WindowsJson(windows).members;
    forall name | name in members ensures ReadingOf(members[name]) == Some(Compared(windows)[name]) {
      WindowReadsBack(windows[name]);
    }
    assert ReadingsOf(WindowsJson(windows)).Some?;
    var read, compared := ReadingsOf(WindowsJson(windows)).value, Compared(windows);
    assert forall name :: name in read <==> name in compared;
    assert forall name :: name in read ==> read[name] == compared[name];
    assert read == compared;
  }

  /** A last-value file: a value that parsed, or bytes that do not. */
  datatype LastFile = Unparseable | Holding(json: Json)

  function LastReadings(last: map<string, LastFile>, stem: string): Option<Readings> {
    if stem in last && last[stem].Holding? then ReadingsOf(last[stem].json) else None
  }

  predicate WindowsMoved(last: map<string, LastFile>, stem: string, windows: Windows) {
    LastReadings(last, stem) != ReadingsOf(WindowsJson(windows))
  }

  // ---------------------------------------------------------------- file names

  predicate FileNameChar(c: char) {
    'a' <= c <= 'z' || 'A' <= c <= 'Z' || '0' <= c <= '9' || c == '.' || c == '_' || c == '-'
  }

  function Sanitized(text: string): (clean: string)
    ensures |clean| == |text|
    ensures forall i :: 0 <= i < |text| ==> clean[i] == if FileNameChar(text[i]) then text[i] else '_'
  {
    seq(|text|, i requires 0 <= i < |text| => if FileNameChar(text[i]) then text[i] else '_')
  }

  const STEM_LIMIT := 100

  function FileStem(session: string): string {
    var clean := Sanitized(if |session| > STEM_LIMIT then session[..STEM_LIMIT] else session);
    if clean == "." || clean == ".." then "_" else clean
  }

  /** The stem is one file name component, whatever the session identifier; identifiers that
      already are one keep their spelling. */
  lemma StemIsOneComponent(session: string)
    ensures |FileStem(session)| <= 100 && FileStem(session) != "." && FileStem(session) != ".."
    ensures forall i :: 0 <= i < |FileStem(session)| ==> FileNameChar(FileStem(session)[i])
    ensures FileStem(session) == session <==>
      |session| <= 100 && session != "." && session != ".."
      && forall i :: 0 <= i < |session| ==> FileNameChar(session[i])
  {
    var cut := if |session| > STEM_LIMIT then session[..STEM_LIMIT] else session;
    var clean := Sanitized(cut);
    if |session| <= STEM_LIMIT && forall i :: 0 <= i < |session| ==> FileNameChar(session[i]) {
      assert clean == session;
    }
    if FileStem(session) == session {
      assert forall i :: 0 <= i < |session| ==> FileNameChar(session[i]);
    }
  }

  /** The characters a stem keeps, by their codes: digits, letters, hyphen, full stop, underscore. */
  lemma FileNameChars(c: char)
    ensures FileNameChar(c) <==>
      || 0x30 <= c as int <= 0x39 || 0x41 <= c as int <= 0x5A || 0x61 <= c as int <= 0x7A
      || c as int in {0x2D, 0x2E, 0x5F}
  {
  }

  predicate SingleComponent(name: string) {
    name != "" && name != "." && name != ".." && '/' !in name && '\\' !in name && '\0' !in name
  }

  // ---------------------------------------------------------------- recording

  datatype Account = Account(name: string, provider: string)

  datatype Line = Line(account: string, session: string, receivedAt: int, cwd: Option<string>, windows: Windows)

  datatype NoRecord = NoProfile | UnknownProfile(name: string) | UnusableAccountName(name: string)
                    | PayloadNotAnObject | NoSessionId | NoAdmittedWindow

  datatype Admission = Refused(reason: NoRecord) | Render(line: Line)

  function RateLimits(payload: Json): map<string, Json> {
    var limits := Member(payload, "rate_limits");
    if limits.Some? && limits.value.Object? then limits.value.members else map[]
  }

  function SessionOf(payload: Json): Option<string> {
    NonEmptyText(OrElse(Member(payload, "session_id"), Member(payload, "sessionId")))
  }

  function CwdOf(payload: Json): Option<string> {
    var workspace := Member(payload, "workspace");
    NonEmptyText(OrElse(Member(payload, "cwd"),
                        if workspace.Some? then Member(workspace.value, "current_dir") else None))
  }

  /** What a render asks to be recorded, or why nothing is. `None` is a payload that does not
      parse. */
  function Admit(accounts: seq<Account>, profile: Option<string>, payload: Option<Json>, receivedAt: int,
                 parse: string -> Option<int>): Admission
  {
    if profile.None? then Refused(NoProfile)
    else if Account(profile.value, "anthropic") !in accounts then Refused(UnknownProfile(profile.value))
    else if !SingleComponent(profile.value) then Refused(UnusableAccountName(profile.value))
    else if payload.None? || !payload.value.Object? then Refused(PayloadNotAnObject)
    else
      var session := SessionOf(payload.value);
      if session.None? then Refused(NoSessionId)
      else
        var windows := AdmittedWindows(RateLimits(payload.value), parse);
        if windows == map[] then Refused(NoAdmittedWindow)
        else Render(Line(profile.value, session.value, receivedAt, CwdOf(payload.value), windows))
  }

  /** The session is read under the payload's own spelling, and only in its absence under the
      other; an empty or non-text value is no session. */
  lemma SessionSpellings(payload: Json)
    requires payload.Object?
    ensures "session_id" in payload.members ==>
      SessionOf(payload) == NonEmptyText(Some(payload.members["session_id"]))
    ensures "session_id" !in payload.members && "sessionId" in payload.members ==>
      SessionOf(payload) == NonEmptyText(Some(payload.members["sessionId"]))
    ensures "session_id" !in payload.members && "sessionId" !in payload.members ==> SessionOf(payload) == None
    ensures forall text :: NonEmptyText(Some(Text(text))) == if text == "" then None else Some(text)
    ensures forall json: Json :: !json.Text? ==> NonEmptyText(Some(json)) == None
  {
  }

  /** The directory likewise: the payload's, or in its absence the workspace's current one. */
  lemma DirectorySpellings(payload: Json)
    requires payload.Object?
    ensures "cwd" in payload.members ==> CwdOf(payload) == NonEmptyText(Some(payload.members["cwd"]))
    ensures "cwd" !in payload.members && "workspace" in payload.members && payload.members["workspace"].Object? ==>
      CwdOf(payload) ==
        if "current_dir" in payload.members["workspace"].members
        then NonEmptyText(Some(payload.members["workspace"].members["current_dir"])) else None
    ensures "cwd" !in payload.members && "workspace" !in payload.members ==> CwdOf(payload) == None
  {
  }

  /** An entry is a window exactly when it is an object with a numeric percentage; its reset is the
      whole number, or the one a text parses to, and nothing else. */
  lemma WindowShapes(entry: Json, parse: string -> Option<int>)
    ensures AdmittedWindow(entry, parse).Some? <==>
      entry.Object? && "used_percentage" in entry.members && entry.members["used_percentage"].Number?
    ensures AdmittedWindow(entry, parse).Some? ==>
      && entry.members["used_percentage"] == Number(AdmittedWindow(entry, parse).value.used)
      && AdmittedWindow(entry, parse).value.resetsAt ==
           if "resets_at" !in entry.members then None
           else if entry.members["resets_at"].Text? then parse(entry.members["resets_at"].text)
           else if entry.members["resets_at"].Number? then entry.members["resets_at"].number.integer
           else None
  {
  }

  /** A render is refused as one of an unknown profile exactly when it names a profile and no
      Anthropic account has exactly that name. */
  lemma UnknownProfileExactlyWhen(accounts: seq<Account>, profile: Option<string>, payload: Option<Json>,
                                  receivedAt: int, parse: string -> Option<int>, name: string)
    ensures Admit(accounts, profile, payload, receivedAt, parse) == Refused(UnknownProfile(name)) <==>
      profile == Some(name) && forall a :: a in accounts && a.name == name ==> a.provider != "anthropic"
    ensures Admit(accounts, profile, payload, receivedAt, parse) == Refused(NoProfile) <==> profile == None
    ensures profile == Some(name) && Account(name, "anthropic") in accounts ==>
      (Admit(accounts, profile, payload, receivedAt, parse) == Refused(UnusableAccountName(name)) <==>
       name in {"", ".", ".."} || exists i :: 0 <= i < |name| && name[i] in {'/', '\\', '\0'})
  {
    hide SessionOf, CwdOf, RateLimits, AdmittedWindows;
  }

  /** Past its account, a render is refused for its payload exactly when that is no object, names no
      session, or holds no window, in this order; otherwise it is recorded. */
  lemma RefusedPayloadExactlyWhen(accounts: seq<Account>, name: string, payload: Option<Json>, receivedAt: int,
                                  parse: string -> Option<int>)
    requires Account(name, "anthropic") in accounts && SingleComponent(name)
    ensures
      var admission := Admit(accounts, Some(name), payload, receivedAt, parse);
      if payload == None || !payload.value.Object? then admission == Refused(PayloadNotAnObject)
      else if SessionOf(payload.value) == None then admission == Refused(NoSessionId)
      else if AdmittedWindows(RateLimits(payload.value), parse) == map[] then admission == Refused(NoAdmittedWindow)
      else admission.Render? && admission.line.account == name && admission.line.receivedAt == receivedAt
  {
    hide SessionOf, CwdOf, RateLimits, AdmittedWindows, SingleComponent;
  }

  /** A line some render can ask to be recorded. */
  predicate Renderable(line: Line) {
    line.windows != map[] && line.session != "" && line.cwd != Some("") && SingleComponent(line.account)
  }

  /** The payload of a render that would ask for the line. */
  function PayloadOf(line: Line): Json {
    Object(map["session_id" := Text(line.session),
               "rate_limits" := WindowsJson(line.windows),
               "cwd" := if line.cwd.Some? then Text(line.cwd.value) else Null])
  }

  lemma AdmittedAsWritten(windows: Windows, parse: string -> Option<int>)
    ensures AdmittedWindows(WindowsJson(windows).members, parse) == windows
  {
    var members := WindowsJson(windows).members;
    hide WindowJson, AdmittedWindow;
    forall name | name in windows ensures AdmittedWindow(members[name], parse) == Some(windows[name]) {
      WindowAdmits(windows[name], parse);
    }
    assert forall name :: name in AdmittedWindows(members, parse) <==> name in windows;
  }

  lemma WindowAdmits(window: Window, parse: string -> Option<int>)
    ensures AdmittedWindow(WindowJson(window), parse) == Some(window)
  {
    var members := WindowJson(window).members;
    assert "used_percentage"[0] != "resets_at"[0];
    assert members["used_percentage"] == Number(window.used);
  }

  lemma PayloadMembers(line: Line)
    ensures SessionOf(PayloadOf(line)) == (if line.session == "" then None else Some(line.session))
    ensures RateLimits(PayloadOf(line)) == WindowsJson(line.windows).members
    ensures CwdOf(PayloadOf(line)) == (if line.cwd == Some("") then None else line.cwd)
  {
    assert WindowsJson(line.windows).Object?;
    hide WindowsJson;
    assert "session_id"[0] != "rate_limits"[0] && "session_id"[0] != "cwd"[0] && "rate_limits"[0] != "cwd"[0];
    var members := PayloadOf(line).members;
    assert members["session_id"] == Text(line.session);
    assert members["rate_limits"] == WindowsJson(line.windows);
    assert "sessionId"[7] != "session_id"[7];
    assert "cwd" in members;
  }

  ghost predicate CanRender(line: Line) {
    exists accounts, profile, payload, parse ::
      Admit(accounts, profile, payload, line.receivedAt, parse) == Render(line)
  }

  /** Some render asks for a line exactly when it names a session, a window and an account that
      can be a file name, and no empty directory. */
  lemma RenderableExactlyWhenAdmitted(line: Line)
    ensures Renderable(line) <==> CanRender(line)
  {
    hide Admit, Renderable;
    if Renderable(line) {
      PayloadIsAdmitted(line);
    }
    if CanRender(line) {
      var accounts, profile, payload, parse :| Admit(accounts, profile, payload, line.receivedAt, parse)
        == Render(line);
      AdmittedIsRenderable(accounts, profile, payload, line, parse);
    }
  }

  lemma AdmittedIsRenderable(accounts: seq<Account>, profile: Option<string>, payload: Option<Json>, line: Line,
                             parse: string -> Option<int>)
    requires Admit(accounts, profile, payload, line.receivedAt, parse) == Render(line)
    ensures Renderable(line)
  {
    hide SingleComponent, AdmittedWindows, RateLimits;
  }

  lemma PayloadIsAdmitted(line: Line)
    requires Renderable(line)
    ensures CanRender(line)
  {
    var none := (text: string) => None;
    hide SessionOf, RateLimits, CwdOf, AdmittedWindows, PayloadOf, SingleComponent, WindowsJson;
    PayloadMembers(line);
    AdmittedAsWritten(line.windows, none);
    ObjectPayload(line);
    var accounts := [Account(line.account, "anthropic")];
    assert Admit(accounts, Some(line.account), Some(PayloadOf(line)), line.receivedAt, none) == Render(line);
  }

  lemma ObjectPayload(line: Line)
    ensures PayloadOf(line).Object?
  {
  }

  /** The record directory: every line appended, in order, and the last-value files. */
  datatype Dir = Dir(lines: seq<Line>, last: map<string, LastFile>)

  function Recorded(dir: Dir, line: Line): Dir {
    var stem := FileStem(line.session);
    if WindowsMoved(dir.last, stem, line.windows)
    then Dir(dir.lines + [line], dir.last[stem := Holding(WindowsJson(line.windows))])
    else dir
  }

  function LinesOf(lines: seq<Line>, account: string): seq<Line> {
    if lines == [] then []
    else
      var n := |lines| - 1;
      LinesOf(lines[..n], account) + (if lines[n].account == account then [lines[n]] else [])
  }

  /** The directory on disk: one log per account, one last-value file per session stem. */
  class RecordDirectory {
    var logs: map<string, seq<Line>>
    var last: map<string, LastFile>
    ghost var appended: seq<Line>

    ghost predicate Valid()
      reads this
    {
      forall account :: LinesOf(appended, account) == if account in logs then logs[account] else []
    }

    ghost function Contents(): Dir
      reads this
    {
      Dir(appended, last)
    }

    constructor ()
      ensures Valid() && Contents() == Dir([], map[])
    {
      logs, last, appended := map[], map[], [];
    }

    /** Appends the line to its account's log, then overwrites the session's last value. */
    method Record(accounts: seq<Account>, profile: Option<string>, payload: Option<Json>, receivedAt: int,
                  parse: string -> Option<int>) returns (refusal: Option<NoRecord>)
      requires Valid()
      modifies this
      ensures Valid()
      ensures match Admit(accounts, profile, payload, receivedAt, parse)
              case Refused(reason) => refusal == Some(reason) && Contents() == old(Contents())
              case Render(line) => refusal == None && Contents() == Recorded(old(Contents()), line)
    {
      hide SessionOf, CwdOf, RateLimits, AdmittedWindows, SingleComponent, Recorded, LinesOf;
      if profile.None? {
        return Some(NoProfile);
      }
      var name := profile.value;
      if Account(name, "anthropic") !in accounts {
        return Some(UnknownProfile(name));
      }
      if !SingleComponent(name) {
        return Some(UnusableAccountName(name));
      }
      if payload.None? || !payload.value.Object? {
        return Some(PayloadNotAnObject);
      }
      var session := SessionOf(payload.value);
      if session.None? {
        return Some(NoSessionId);
      }
      var windows := AdmitWindows(RateLimits(payload.value), parse);
      if windows == map[] {
        return Some(NoAdmittedWindow);
      }
      Append(Line(name, session.value, receivedAt, CwdOf(payload.value), windows));
      refusal := None;
    }

    method Append(line: Line)
      requires Valid()
      modifies this
      ensures Valid() && Contents() == Recorded(old(Contents()), line)
    {
      hide WindowsMoved, FileStem, WindowsJson, LinesOf;
      var stem := FileStem(line.session);
      if !WindowsMoved(last, stem, line.windows) {
        return;
      }
      AppendingOne(appended, line);
      logs := logs[line.account := (if line.account in logs then logs[line.account] else []) + [line]];
      appended := appended + [line];
      last := last[stem := Holding(WindowsJson(line.windows))];
    }
  }

  lemma AppendingOne(lines: seq<Line>, line: Line)
    ensures forall account ::
      LinesOf(lines + [line], account) == LinesOf(lines, account) + (if line.account == account then [line] else [])
  {
    assert (lines + [line])[..|lines|] == lines;
  }

  // ---------------------------------------------------------------- faithful logs

  /** What the lines of one stem say, in order. */
  function Said(lines: seq<Line>, stem: string): seq<Readings> {
    if lines == [] then []
    else
      var n := |lines| - 1;
      Said(lines[..n], stem) + (if FileStem(lines[n].session) == stem then [Compared(lines[n].windows)] else [])
  }

  lemma SaidGrows(lines: seq<Line>, line: Line, stem: string)
    ensures Said(lines + [line], stem)
         == Said(lines, stem) + (if FileStem(line.session) == stem then [Compared(line.windows)] else [])
  {
    assert (lines + [line])[..|lines|] == lines;
    hide FileStem, Compared;
  }

  /** The log of a stem, repeats aside, is what was rendered, repeats aside. */
  predicate Faithful(lines: seq<Line>, renders: seq<Line>, stem: string) {
    Dedup(Said(lines, stem)) == Dedup(Said(renders, stem))
  }

  lemma {:induction false} DedupKeepsLast<T>(s: seq<T>)
    requires s != []
    ensures Dedup(s) != [] && Dedup(s)[|Dedup(s)| - 1] == s[|s| - 1]
  {
    if |s| > 1 {
      DedupKeepsLast(s[1..]);
    }
  }

  lemma {:induction false} DedupGrows<T>(s: seq<T>, x: T)
    ensures Dedup(s + [x]) == if s != [] && s[|s| - 1] == x then Dedup(s) else Dedup(s) + [x]
  {
    if |s| == 1 {
      assert (s + [x])[1..] == [x];
    } else if |s| > 1 {
      DedupGrows(s[1..], x);
      assert (s + [x])[1..] == s[1..] + [x];
    }
  }

  datatype Step =
    | Complete(line: Line)              // a render, carried through
    | CutShort(line: Line)              // a render that dies between its two writes
    | Rewritten(stem: string, file: Option<LastFile>)  // a last-value file lost or overwritten

  function Takes(dir: Dir, step: Step): Dir {
    match step
    case Complete(line) => Recorded(dir, line)
    case CutShort(line) => dir.(lines := Recorded(dir, line).lines)
    case Rewritten(stem, None) => dir.(last := dir.last - {stem})
    case Rewritten(stem, Some(file)) => dir.(last := dir.last[stem := file])
  }

  function Rendered(step: Step): seq<Line> {
    if step.Rewritten? then [] else [step.line]
  }

  /** The last-value file says the render's readings while the log's latest line of the stem
      does not: the render goes unrecorded although the windows moved. */
  predicate Gap(dir: Dir, step: Step) {
    && !step.Rewritten?
    && var stem := FileStem(step.line.session);
       var said := Said(dir.lines, stem);
       && !WindowsMoved(dir.last, stem, step.line.windows)
       && !(said != [] && said[|said| - 1] == Compared(step.line.windows))
  }

  /** A step keeps the log of its stem faithful exactly when it is no gap, whatever state the
      last-value files are in; it never touches the log of another stem. */
  lemma StepKeepsFaithExactlyWithoutGap(dir: Dir, renders: seq<Line>, step: Step, stem: string)
    requires Faithful(dir.lines, renders, stem)
    ensures Faithful(Takes(dir, step).lines, renders + Rendered(step), stem)
       <==> step.Rewritten? || FileStem(step.line.session) != stem || !Gap(dir, step)
  {
    hide WindowsMoved, FileStem, Compared, Said, Dedup;
    if step.Rewritten? {
      assert renders + [] == renders;
    } else {
      SaidGrows(renders, step.line, stem);
      SaidGrows(dir.lines, step.line, stem);
      assert Said(renders, stem) + [] == Said(renders, stem) && Said(dir.lines, stem) + [] == Said(dir.lines, stem);
      OneMore(Said(dir.lines, stem), Said(renders, stem), Compared(step.line.windows));
    }
  }

  /** Two lists equal but for repeats stay so when both grow alike, and when only the second
      grows exactly if the first already ends so. */
  lemma OneMore<T>(a: seq<T>, b: seq<T>, x: T)
    requires Dedup(a) == Dedup(b)
    ensures Dedup(a + [x]) == Dedup(b + [x])
    ensures Dedup(a) == Dedup(b + [x]) <==> a != [] && a[|a| - 1] == x
  {
    hide Dedup;
    SameLast(a, b);
    DedupGrows(a, x);
    DedupGrows(b, x);
    LongerByOne(Dedup(a), x);
  }

  lemma LongerByOne<T>(d: seq<T>, x: T)
    ensures d + [x] != d
  {
    assert |d + [x]| == |d| + 1;
  }

  /** Lists equal but for repeats are empty together and end alike. */
  lemma SameLast<T>(a: seq<T>, b: seq<T>)
    requires Dedup(a) == Dedup(b)
    ensures a == [] <==> b == []
    ensures a != [] ==> a[|a| - 1] == b[|b| - 1]
  {
    hide Dedup;
    DedupOfNothing(a);
    DedupOfNothing(b);
    if a != [] {
      DedupKeepsLast(a);
      DedupKeepsLast(b);
    }
  }

  lemma DedupOfNothing<T>(s: seq<T>)
    ensures Dedup(s) == [] <==> s == []
  {
    if s != [] {
      DedupKeepsLast(s);
    }
  }

  // ---------------------------------------------------------------- whole runs

  /** A step of a run in which nothing dies between two writes and a last-value file may be
      lost or damaged, but not into readings. */
  predicate Benign(step: Step) {
    match step
    case Complete(_) => true
    case CutShort(_) => false
    case Rewritten(_, None) => true
    case Rewritten(_, Some(Unparseable)) => true
    case Rewritten(_, Some(Holding(json))) => ReadingsOf(json).None?
  }

  function RunOf(steps: seq<Step>): Dir {
    if steps == [] then Dir([], map[]) else Takes(RunOf(steps[..|steps| - 1]), steps[|steps| - 1])
  }

  function RendersOf(steps: seq<Step>): seq<Line> {
    if steps == [] then [] else RendersOf(steps[..|steps| - 1]) + Rendered(steps[|steps| - 1])
  }

  /** A readable last-value file says what the latest line of its stem says. */
  ghost predicate LastIsLatest(dir: Dir) {
    forall stem :: LastReadings(dir.last, stem).Some? ==>
      var said := Said(dir.lines, stem);
      said != [] && said[|said| - 1] == LastReadings(dir.last, stem).value
  }

  /** After a render that is carried through, its last-value file says what it said; a line was
      appended exactly when the file did not say so already. */
  lemma AfterComplete(dir: Dir, line: Line, stem: string)
    ensures var after := Recorded(dir, line);
            var now := Compared(line.windows);
            if FileStem(line.session) == stem then
              && LastReadings(after.last, stem) == Some(now)
              && Said(after.lines, stem) ==
                 Said(dir.lines, stem) + (if LastReadings(dir.last, stem) == Some(now) then [] else [now])
            else
              && LastReadings(after.last, stem) == LastReadings(dir.last, stem)
              && Said(after.lines, stem) == Said(dir.lines, stem)
  {
    hide FileStem, Compared, Said, ReadingsOf, WindowsJson;
    WindowsReadBack(line.windows);
    SaidGrows(dir.lines, line, stem);
    assert Said(dir.lines, stem) + [] == Said(dir.lines, stem);
  }

  lemma BenignKeepsLatest(dir: Dir, step: Step)
    requires LastIsLatest(dir) && Benign(step)
    ensures LastIsLatest(Takes(dir, step)) && !Gap(dir, step)
  {
    hide FileStem, Compared, Said, ReadingsOf, WindowsJson;
    if step.Complete? {
      hide Recorded;
      WindowsReadBack(step.line.windows);
      var after := Recorded(dir, step.line);
      forall stem | LastReadings(after.last, stem).Some?
        ensures var said := Said(after.lines, stem);
                said != [] && said[|said| - 1] == LastReadings(after.last, stem).value
      {
        AfterComplete(dir, step.line, stem);
      }
    }
  }

  /** In every run without a crash, whatever last-value files are lost or damaged, the log of
      every stem is faithful. */
  lemma {:induction false} BenignRunsAreFaithful(steps: seq<Step>, stem: string)
    requires forall i :: 0 <= i < |steps| ==> Benign(steps[i])
    ensures Faithful(RunOf(steps).lines, RendersOf(steps), stem) && LastIsLatest(RunOf(steps))
  {
    if steps == [] {
    } else {
      hide Takes, Faithful, LastIsLatest, Benign, Gap, Rendered;
      var n := |steps| - 1;
      BenignRunsAreFaithful(steps[..n], stem);
      BenignKeepsLatest(RunOf(steps[..n]), steps[n]);
      StepKeepsFaithExactlyWithoutGap(RunOf(steps[..n]), RendersOf(steps[..n]), steps[n], stem);
    }
  }

  /** At every moment of the run the log of the stem is faithful. */
  ghost predicate FaithfulThroughout(steps: seq<Step>, stem: string) {
    forall k :: 0 <= k <= |steps| ==> Faithful(RunOf(steps[..k]).lines, RendersOf(steps[..k]), stem)
  }

  /** No step of the run is a render of the stem that the last-value file wrongly suppresses. */
  ghost predicate Gapless(steps: seq<Step>, stem: string) {
    forall k :: 0 <= k < |steps| ==> !GapOf(RunOf(steps[..k]), steps[k], stem)
  }

  predicate GapOf(dir: Dir, step: Step, stem: string) {
    Gap(dir, step) && FileStem(step.line.session) == stem
  }

  /** In any run at all, of renders carried through or cut short and of last-value files lost,
      damaged or rewritten, the log of a stem is faithful throughout exactly when no render of
      it is wrongly suppressed. */
  lemma {:induction false} FaithfulThroughoutExactlyWithoutGaps(steps: seq<Step>, stem: string)
    ensures FaithfulThroughout(steps, stem) <==> Gapless(steps, stem)
  {
    hide Faithful, Takes, Gap, FileStem, Rendered, RunOf, RendersOf;
    if steps == [] {
      EmptyRunIsFaithful(stem);
      assert steps[..0] == [];
    } else {
      var n := |steps| - 1;
      var front := steps[..n];
      FaithfulThroughoutExactlyWithoutGaps(front, stem);
      RunGrows(steps);
      assert steps[..|steps|] == steps;
      assert forall k :: 0 <= k <= n ==> front[..k] == steps[..k];
      if Faithful(RunOf(front).lines, RendersOf(front), stem) {
        StepKeepsFaithExactlyWithoutGap(RunOf(front), RendersOf(front), steps[n], stem);
        GapIsOfARender(RunOf(front), steps[n]);
      }
    }
  }

  lemma GapIsOfARender(dir: Dir, step: Step)
    ensures Gap(dir, step) ==> !step.Rewritten?
  {
  }

  lemma EmptyRunIsFaithful(stem: string)
    ensures Faithful(RunOf([]).lines, RendersOf([]), stem)
  {
  }

  predicate NoRepeats<T(==)>(s: seq<T>) {
    forall i :: 0 < i < |s| ==> s[i - 1] != s[i]
  }

  lemma NoRepeatsGrows<T>(s: seq<T>, x: T)
    requires NoRepeats(s) && (s == [] || s[|s| - 1] != x)
    ensures NoRepeats(s + [x])
  {
  }

  /** The log of the stem repeats nothing, and the last-value file says its latest line. */
  predicate Crisp(dir: Dir, stem: string) {
    var said := Said(dir.lines, stem);
    NoRepeats(said) && LastReadings(dir.last, stem) == (if said == [] then None else Some(said[|said| - 1]))
  }

  lemma CompleteKeepsCrisp(dir: Dir, line: Line, stem: string)
    requires Crisp(dir, stem)
    ensures Crisp(Recorded(dir, line), stem)
  {
    hide FileStem, Compared, Said, LastReadings, Recorded, NoRepeats;
    AfterComplete(dir, line, stem);
    var said, now := Said(dir.lines, stem), Compared(line.windows);
    assert said + [] == said;
    if said == [] || said[|said| - 1] != now {
      NoRepeatsGrows(said, now);
    }
  }

  /** When no last-value file is touched either, the log holds no repeat at all. */
  lemma {:induction false} UndisturbedRunsAreCrisp(steps: seq<Step>, stem: string)
    requires forall i :: 0 <= i < |steps| ==> steps[i].Complete?
    ensures Crisp(RunOf(steps), stem)
  {
    if steps == [] {
      assert Said([], stem) == [];
    } else {
      hide Crisp, RunOf, Recorded;
      UndisturbedRunsAreCrisp(steps[..|steps| - 1], stem);
      RunGrows(steps);
      CompleteKeepsCrisp(RunOf(steps[..|steps| - 1]), steps[|steps| - 1].line, stem);
    }
  }

  /** A render that dies between its two writes can hide a later change: windows that return to
      the value before it leave no line. */
  lemma CutShortHidesAReturn(one: Line, two: Line)
    requires one.session == two.session && Compared(one.windows) != Compared(two.windows)
    ensures var steps := [Complete(one), CutShort(two), Complete(one)];
            && RunOf(steps).lines == [one, two]
            && RendersOf(steps) == [one, two, one]
            && !Faithful(RunOf(steps).lines, RendersOf(steps), FileStem(one.session))
  {
    hide Compared, FileStem, Faithful, RunOf, RendersOf, Takes, LastReadings;
    var steps := [Complete(one), CutShort(two), Complete(one)];
    var before := [Complete(one), CutShort(two)];
    assert steps[..2] == before;
    RunGrows(steps);
    ThenCutShort(one, two);
    ReturnIsHidden(RunOf(before), one, two);
    assert [one, two] + [one] == [one, two, one];
  }

  /** The last-value file still says the value returned to, so nothing is appended. */
  lemma ReturnIsHidden(dir: Dir, one: Line, two: Line)
    requires one.session == two.session && Compared(one.windows) != Compared(two.windows)
    requires dir.lines == [one, two] && LastReadings(dir.last, FileStem(one.session)) == Some(Compared(one.windows))
    ensures Takes(dir, Complete(one)).lines == [one, two]
    ensures !Faithful([one, two], [one, two] + [one], FileStem(one.session))
  {
    var stem := FileStem(one.session);
    WindowsReadBack(one.windows);
    SaidByTwo(one, two, stem);
    SaidAlike(dir.lines, stem);
    hide Compared, WindowsJson, ReadingsOf, FileStem, Said, Faithful;
    assert Gap(dir, Complete(one));
    StepKeepsFaithExactlyWithoutGap(dir, [one, two], Complete(one), stem);
  }

  lemma SaidAlike(lines: seq<Line>, stem: string)
    ensures Faithful(lines, lines, stem)
  {
  }

  lemma ThenCutShort(one: Line, two: Line)
    requires one.session == two.session && Compared(one.windows) != Compared(two.windows)
    ensures var steps := [Complete(one), CutShort(two)];
            && RunOf(steps).lines == [one, two] && RendersOf(steps) == [one, two]
            && LastReadings(RunOf(steps).last, FileStem(one.session)) == Some(Compared(one.windows))
  {
    hide Compared, WindowsJson, ReadingsOf, FileStem, RunOf, RendersOf;
    var steps := [Complete(one), CutShort(two)];
    assert steps[..1] == [Complete(one)];
    FirstRender(one);
    WindowsReadBack(two.windows);
    RunGrows(steps);
    assert [one] + [two] == [one, two];
  }

  lemma FirstRender(line: Line)
    ensures RunOf([Complete(line)]).lines == [line] && RendersOf([Complete(line)]) == [line]
    ensures LastReadings(RunOf([Complete(line)]).last, FileStem(line.session)) == Some(Compared(line.windows))
  {
    hide Compared, WindowsJson, ReadingsOf, FileStem;
    WindowsReadBack(line.windows);
    assert [Complete(line)][..0] == [];
    assert [] + [line] == [line];
  }

  lemma SaidNothing(stem: string)
    ensures Said([], stem) == []
  {
  }

  lemma SaidByTwo(one: Line, two: Line, stem: string)
    requires FileStem(one.session) == stem && FileStem(two.session) == stem
    ensures Said([one, two], stem) == [Compared(one.windows), Compared(two.windows)]
  {
    hide Compared, FileStem, Said;
    SaidNothing(stem);
    SaidGrows([], one, stem);
    SaidGrows([one], two, stem);
    assert [] + [one] == [one] && [one] + [two] == [one, two];
    assert [] + [Compared(one.windows)] == [Compared(one.windows)];
  }

  // ---------------------------------------------------------------- one log per account and session

  /** What the log of an account says of one session. */
  function SaidFor(lines: seq<Line>, account: string, session: string): seq<Readings> {
    if lines == [] then []
    else
      var n := |lines| - 1;
      SaidFor(lines[..n], account, session)
      + (if lines[n].account == account && lines[n].session == session then [Compared(lines[n].windows)] else [])
  }

  type Meter = (string, string)

  /** Lines that renders of these accounts and sessions ask for. */
  predicate DrawnFrom(lines: seq<Line>, meters: set<Meter>) {
    forall i :: 0 <= i < |lines| ==> Renderable(lines[i]) && (lines[i].account, lines[i].session) in meters
  }

  /** A render can come from it. */
  predicate Usable(meter: Meter) {
    SingleComponent(meter.0) && meter.1 != ""
  }

  /** No two accounts share a session stem, and no two sessions of one account do. */
  predicate StemsApart(meters: set<Meter>) {
    forall p, q :: p in meters && q in meters && Usable(p) && Usable(q) && FileStem(p.1) == FileStem(q.1) ==> p == q
  }

  function AllComplete(renders: seq<Line>): seq<Step> {
    seq(|renders|, i requires 0 <= i < |renders| => Complete(renders[i]))
  }

  /** Every account's log is faithful to what was rendered for each of its sessions. */
  ghost predicate EveryLogFaithful(renders: seq<Line>, meters: set<Meter>) {
    forall meter :: meter in meters ==>
      Dedup(SaidFor(RunOf(AllComplete(renders)).lines, meter.0, meter.1)) == Dedup(SaidFor(renders, meter.0, meter.1))
  }

  lemma {:induction false} SaidForIsSaid(lines: seq<Line>, meters: set<Meter>, meter: Meter)
    requires StemsApart(meters) && meter in meters && Usable(meter) && DrawnFrom(lines, meters)
    ensures SaidFor(lines, meter.0, meter.1) == Said(lines, FileStem(meter.1))
  {
    if lines != [] {
      hide FileStem, Compared, SingleComponent;
      var n := |lines| - 1;
      SaidForIsSaid(lines[..n], meters, meter);
      var other := (lines[n].account, lines[n].session);
      assert other in meters && Usable(other);
      assert FileStem(other.1) == FileStem(meter.1) ==> other == meter;
    }
  }

  lemma {:induction false} NothingSaidForUnusable(lines: seq<Line>, meters: set<Meter>, meter: Meter)
    requires !Usable(meter) && DrawnFrom(lines, meters)
    ensures SaidFor(lines, meter.0, meter.1) == []
  {
    if lines != [] {
      hide SingleComponent;
      NothingSaidForUnusable(lines[..|lines| - 1], meters, meter);
    }
  }

  lemma DrawnFromGrows(lines: seq<Line>, line: Line, meters: set<Meter>)
    ensures DrawnFrom(lines + [line], meters) <==>
      DrawnFrom(lines, meters) && Renderable(line) && (line.account, line.session) in meters
  {
    hide Renderable;
    var more := lines + [line];
    if DrawnFrom(more, meters) {
      forall i | 0 <= i < |lines| ensures Renderable(lines[i]) && (lines[i].account, lines[i].session) in meters {
        assert more[i] == lines[i];
      }
      assert more[|lines|] == line;
    }
  }

  lemma AllCompleteGrows(renders: seq<Line>)
    requires renders != []
    ensures var steps, n := AllComplete(renders), |renders| - 1;
            |steps| == n + 1 && steps[..n] == AllComplete(renders[..n]) && steps[n] == Complete(renders[n])
  {
  }

  lemma RecordedLines(dir: Dir, line: Line)
    ensures Recorded(dir, line).lines == dir.lines || Recorded(dir, line).lines == dir.lines + [line]
  {
    hide WindowsMoved;
  }

  lemma {:induction false} RunOfAllComplete(renders: seq<Line>, meters: set<Meter>)
    requires DrawnFrom(renders, meters)
    ensures DrawnFrom(RunOf(AllComplete(renders)).lines, meters)
    ensures RendersOf(AllComplete(renders)) == renders
  {
    if renders == [] {
      assert AllComplete(renders) == [];
    } else {
      hide RunOf, RendersOf, DrawnFrom, AllComplete, Recorded;
      var front, line := renders[..|renders| - 1], renders[|renders| - 1];
      assert renders == front + [line];
      DrawnFromGrows(front, line, meters);
      RunOfAllComplete(front, meters);
      AllCompleteGrows(renders);
      RunGrows(AllComplete(renders));
      var before := RunOf(AllComplete(front));
      RecordedLines(before, line);
      DrawnFromGrows(before.lines, line, meters);
    }
  }

  lemma RunGrows(steps: seq<Step>)
    requires steps != []
    ensures RunOf(steps) == Takes(RunOf(steps[..|steps| - 1]), steps[|steps| - 1])
    ensures RendersOf(steps) == RendersOf(steps[..|steps| - 1]) + Rendered(steps[|steps| - 1])
  {
    hide Takes;
  }

  /** Renders of a set of accounts and sessions are logged faithfully, whatever they are,
      exactly when the stems of the set keep apart the accounts and sessions a render can name. */
  lemma FaithfulExactlyWhenStemsApart(meters: set<Meter>)
    ensures (forall renders :: DrawnFrom(renders, meters) ==> EveryLogFaithful(renders, meters)) <==> StemsApart(meters)
  {
    hide FileStem, SingleComponent;
    if StemsApart(meters) {
      forall renders | DrawnFrom(renders, meters) ensures EveryLogFaithful(renders, meters) {
        ApartIsFaithful(renders, meters);
      }
    } else {
      var p, q :| p in meters && q in meters && Usable(p) && Usable(q) && FileStem(p.1) == FileStem(q.1) && p != q;
      SharedStemSuppresses(meters, p, q);
    }
  }

  lemma ApartIsFaithful(renders: seq<Line>, meters: set<Meter>)
    requires StemsApart(meters) && DrawnFrom(renders, meters)
    ensures EveryLogFaithful(renders, meters)
  {
    hide RunOf, FileStem, Said, SaidFor, Dedup, StemsApart, DrawnFrom, Usable;
    RunOfAllComplete(renders, meters);
    var lines := RunOf(AllComplete(renders)).lines;
    forall meter | meter in meters
      ensures Dedup(SaidFor(lines, meter.0, meter.1)) == Dedup(SaidFor(renders, meter.0, meter.1))
    {
      if Usable(meter) {
        SaidForIsSaid(lines, meters, meter);
        SaidForIsSaid(renders, meters, meter);
        BenignRunsAreFaithful(AllComplete(renders), FileStem(meter.1));
      } else {
        NothingSaidForUnusable(lines, meters, meter);
        NothingSaidForUnusable(renders, meters, meter);
      }
    }
  }

  const ONE_WINDOW: Windows := map["five_hour" := Window(Num("1", 1.0, Some(1)), None)]

  function OneWindowLine(meter: Meter): Line {
    Line(meter.0, meter.1, 0, None, ONE_WINDOW)
  }

  lemma OneWindowIsRenderable(meter: Meter)
    requires Usable(meter)
    ensures Renderable(OneWindowLine(meter))
  {
    assert "five_hour" in ONE_WINDOW;
    hide SingleComponent;
  }

  lemma PairIsDrawn(one: Line, two: Line, meters: set<Meter>)
    requires Renderable(one) && Renderable(two)
    requires (one.account, one.session) in meters && (two.account, two.session) in meters
    ensures DrawnFrom([one, two], meters)
  {
    hide Renderable;
  }

  /** The second of two meters that share a stem loses its only line. */
  lemma SharedStemSuppresses(meters: set<Meter>, p: Meter, q: Meter)
    requires p in meters && q in meters && Usable(p) && Usable(q) && p != q && FileStem(p.1) == FileStem(q.1)
    ensures exists renders :: DrawnFrom(renders, meters) && !EveryLogFaithful(renders, meters)
  {
    var one, two := OneWindowLine(p), OneWindowLine(q);
    OneWindowIsRenderable(p);
    OneWindowIsRenderable(q);
    hide FileStem, RunOf, SaidFor, Dedup, AllComplete, Renderable, Usable, DrawnFrom, OneWindowLine;
    assert one.account == p.0 && one.session == p.1 && two.account == q.0 && two.session == q.1
           && one.windows == two.windows by { OneWindowMeters(p); OneWindowMeters(q); }
    PairIsDrawn(one, two, meters);
    SecondIsSuppressed(one, two);
    SaidForOther(one, two);
    DedupOfNothing(SaidFor([one, two], q.0, q.1));
    DedupOfNothing(SaidFor([one], q.0, q.1));
    assert !EveryLogFaithful([one, two], meters);
  }

  lemma OneWindowMeters(meter: Meter)
    ensures var line := OneWindowLine(meter);
            line.account == meter.0 && line.session == meter.1 && line.windows == ONE_WINDOW
  {
  }

  lemma SaidForOther(one: Line, two: Line)
    requires one.account != two.account || one.session != two.session
    ensures SaidFor([one], two.account, two.session) == []
    ensures SaidFor([one, two], two.account, two.session) != []
  {
    hide Compared;
    assert [one][..0] == [] && [one, two][..1] == [one];
  }

  lemma SecondIsSuppressed(one: Line, two: Line)
    requires FileStem(one.session) == FileStem(two.session) && one.windows == two.windows
    ensures RunOf(AllComplete([one, two])).lines == [one]
  {
    hide FileStem, Compared, WindowsJson, ReadingsOf;
    WindowsReadBack(one.windows);
    FirstRender(one);
    var steps := AllComplete([one, two]);
    assert steps == [Complete(one), Complete(two)] && steps[..1] == [Complete(one)];
    hide RunOf, LastReadings;
    RunGrows(steps);
  }
}
