/** The confirmation and lock protocol of the Telegram client (firmware/src/telegram.rs): one
    pending confirmation, one pending input, a default-deny lock.

    The client keeps its state in fields. The specification keeps only the history of protocol
    events and derives from it what may happen next; the class is proved to add exactly the
    events that the specification allows. */
module TelegramClient {
  import opened Wrappers
  import opened Text
  import opened Callbacks
  import opened WireStrings
  import Versions
  import UpdateCursor

  // ---------- What is asked for and what is done ----------

  datatype ConfigChange = SetPcIp(address: string) | SetWolPort(port: nat) | SetBrightness(percent: nat)

  datatype Kind = Power(action: PowerAction) | Config(change: ConfigChange) | FirmwareUpdate(version: string)

  /** Whether a button's target fits a pending confirmation. */
  predicate TargetMatches(t: Target, k: Kind) {
    match (t, k)
    case (PowerTarget(a), Power(b)) => a == b
    case (ConfigTarget, Config(_)) => true
    case (UpdateTarget, FirmwareUpdate(_)) => true
    case _ => false
  }

  function TargetOf(k: Kind): Target {
    match k
    case Power(a) => PowerTarget(a)
    case Config(_) => ConfigTarget
    case FirmwareUpdate(_) => UpdateTarget
  }

  datatype Effect =
    | SendWake
    | RunPower(action: PowerAction)
    | WriteConfig(change: ConfigChange)
    | FlashFirmware(manifest: Manifest)

  /** The effect is the one that was confirmed, payload included. */
  predicate Permits(k: Kind, e: Effect) {
    match (k, e)
    case (Power(a), RunPower(b)) => a == b
    case (Config(c), WriteConfig(d)) => c == d
    case (FirmwareUpdate(v), FlashFirmware(m)) => m.version == v
    case _ => false
  }

  // ---------- Surroundings ----------

  /** Fixed configuration. `parse` validates a setting; `mac` is the keyed MAC of a text. */
  datatype Settings = Settings(
    allowedUserId: string,
    ttl: nat,
    firmwareVersion: string,
    parse: (SettingKind, string) -> Option<ConfigChange>,
    mac: string -> string)

  /** What the client reads while handling one update: the sender, the clock (`now` when a
      confirmation or input is taken, `later` when one is issued), a fresh nonce, the verified
      manifest, if one could be fetched, and whether an operation works: the packet is sent, the
      bridge accepts, the setting is stored, the image is flashed. */
  datatype Context = Context(
    from: int, now: int, later: int, nonce: string, manifest: Option<Manifest>, works: bool)

  /** Fetching yields verified manifests only. */
  predicate Sound(s: Settings, c: Context) {
    c.manifest.Some? ==> ManifestVerified(s.mac, c.manifest.value)
  }

  /** The configured id is compared as text, with surrounding whitespace removed. */
  predicate Authorized(s: Settings, from: int) {
    DecimalInt(from) == Trim(s.allowedUserId)
  }

  /** The allowed user is the one whose decimal id the configuration holds, whitespace aside; no
      other spelling of a number counts. */
  lemma AuthorizedExactlyWhen(s: Settings, before: string, id: int, after: string, from: int)
    requires s.allowedUserId == before + DecimalInt(id) + after
    requires AllWhitespace(before) && AllWhitespace(after)
    ensures Authorized(s, from) <==> from == id
  {
    DecimalIntIsPlain(id);
    TrimOfPadded(before, DecimalInt(id), after);
    if Authorized(s, from) {
      DecimalIntIsInjective(from, id);
    }
    hide DecimalInt, Trim;
  }

  lemma DecimalIntIsPlain(n: int)
    ensures var t := DecimalInt(n); t != "" && !IsWhitespace(t[0]) && !IsWhitespace(t[|t| - 1])
  {
    var d := DecimalNat(if n < 0 then -n else n);
    assert AllDigits(d);
    assert DecimalInt(n)[|DecimalInt(n)| - 1] == d[|d| - 1];
  }

  /** A configuration that is not a number in decimal admits nobody. */
  lemma NobodyAuthorized(s: Settings, from: int)
    requires forall id :: Trim(s.allowedUserId) != DecimalInt(id)
    ensures !Authorized(s, from)
  {
  }

  datatype Update =
    | CallbackQuery(data: string, chatId: int)
    | Message(text: string, chatId: int)
    | Other

  // ---------- History ----------

  datatype Event =
    | Issued(kind: Kind, nonce: string, at: int, from: int)
    | Attempted(nonce: string, at: int, from: int)
    | InputOpened(setting: SettingKind, at: int, from: int)
    | InputTaken(from: int)
    | LockSet(locked: bool, from: int)
    | Executed(effect: Effect, ok: bool, from: int)

  type History = seq<Event>

  datatype Pending = Pending(kind: Kind, nonce: string, expiresAt: int)
  datatype PendingInput = PendingInput(setting: SettingKind, expiresAt: int)

  /** The confirmation that a history leaves open: the last one issued, unless an attempt or a
      lock came after it. */
  ghost function Live(h: History, ttl: nat): Option<Pending> {
    if h == [] then None
    else match h[|h| - 1]
      case Issued(kind, nonce, at, _) => Some(Pending(kind, nonce, at + ttl))
      case Attempted(_, _, _) => None
      case LockSet(true, _) => None
      case _ => Live(h[..|h| - 1], ttl)
  }

  ghost function LiveInput(h: History, ttl: nat): Option<PendingInput> {
    if h == [] then None
    else match h[|h| - 1]
      case InputOpened(setting, at, _) => Some(PendingInput(setting, at + ttl))
      case InputTaken(_) => None
      case LockSet(true, _) => None
      case _ => LiveInput(h[..|h| - 1], ttl)
  }

  ghost predicate LockedAfter(h: History) {
    if h == [] then false
    else match h[|h| - 1]
      case LockSet(locked, _) => locked
      case _ => LockedAfter(h[..|h| - 1])
  }

  /** A successful flash restarts the device; this client then handles nothing more. */
  ghost predicate HaltedAfter(h: History) {
    h != [] && (Halts(h[|h| - 1]) || HaltedAfter(h[..|h| - 1]))
  }

  predicate Halts(e: Event) {
    e.Executed? && e.ok && e.effect.FlashFirmware?
  }

  /** What the history must show for `e` to come next. */
  ghost predicate MayFollow(s: Settings, h: History, e: Event) {
    && Authorized(s, e.from) && !HaltedAfter(h)
    && (e.LockSet? || !LockedAfter(h))
    && (e.Executed? ==> e.effect.SendWake? || Confirmed(s, h, e.effect))
  }

  /** The last event is an attempt, in time and with the right nonce, on the live confirmation
      of exactly this effect. */
  ghost predicate Confirmed(s: Settings, h: History, e: Effect) {
    && h != [] && h[|h| - 1].Attempted?
    && var attempt := h[|h| - 1];
       var live := Live(h[..|h| - 1], s.ttl);
       && live.Some? && attempt.nonce != "" && attempt.nonce == live.value.nonce
       && attempt.at < live.value.expiresAt
       && Permits(live.value.kind, e)
       && (e.FlashFirmware? ==> ManifestVerified(s.mac, e.manifest))
  }

  ghost predicate Lawful(s: Settings, h: History) {
    forall k :: 0 <= k < |h| ==> LawfulAt(s, h, k)
  }

  ghost predicate LawfulAt(s: Settings, h: History, k: int)
    requires 0 <= k < |h|
  {
    MayFollow(s, h[..k], h[k])
  }

  lemma LawfulAppend(s: Settings, h: History, e: Event)
    requires Lawful(s, h) && MayFollow(s, h, e)
    ensures Lawful(s, h + [e])
  {
    var h' := h + [e];
    forall k | 0 <= k < |h'| ensures LawfulAt(s, h', k) {
      assert h'[..k] == h[..k];
      if k < |h| {
        assert LawfulAt(s, h, k);
      } else {
        assert h[..k] == h;
      }
    }
  }

  // ---------- What an update does to the history ----------

  ghost function Consumed(s: Settings, h: History, nonce: string, now: int): Option<Kind> {
    var live := Live(h, s.ttl);
    if live.Some? && nonce != "" && live.value.nonce == nonce && now < live.value.expiresAt then Some(live.value.kind)
    else None
  }

  function EffectEvents(c: Context, k: Kind): History {
    match k
    case Power(a) => [Executed(RunPower(a), c.works, c.from)]
    case Config(change) => [Executed(WriteConfig(change), c.works, c.from)]
    case FirmwareUpdate(v) =>
      // The manifest is fetched again; only the version that was confirmed is flashed.
      if c.manifest.Some? && c.manifest.value.version == v
      then [Executed(FlashFirmware(c.manifest.value), c.works, c.from)]
      else []
  }

  ghost function AttemptEvents(s: Settings, h: History, c: Context, nonce: string, t: Target): History {
    var kind := Consumed(s, h, nonce, c.now);
    [Attempted(nonce, c.now, c.from)] +
    if kind.Some? && TargetMatches(t, kind.value) then EffectEvents(c, kind.value) else []
  }

  function IssueEvents(c: Context, k: Kind): History {
    [Issued(k, c.nonce, c.later, c.from)]
  }

  function SettingEvents(s: Settings, c: Context, k: SettingKind, raw: string): History {
    var change := s.parse(k, raw);
    if change.Some? then IssueEvents(c, Config(change.value)) else [InputOpened(k, c.later, c.from)]
  }

  function UpdateEvents(s: Settings, c: Context): History {
    if c.manifest.None? then []
    else if Versions.CompareVersions(s.firmwareVersion, c.manifest.value.version).Same? then []
    else IssueEvents(c, FirmwareUpdate(c.manifest.value.version))
  }

  const ALLOWED_WHILE_LOCKED: set<string> := {"/status", "/settings", "/lock", "/unlock"}

  function SettingCommand(command: string): Option<SettingKind> {
    if command == "/set_ip" then Some(PcIp)
    else if command == "/set_wol_port" then Some(WolPort)
    else if command == "/set_brightness" then Some(Brightness)
    else None
  }

  function RequestCommand(command: string): Option<PowerAction> {
    if command == "/reboot" then Some(Reboot)
    else if command == "/shutdown" then Some(Shutdown)
    else if command == "/sleep" then Some(Sleep)
    else None
  }

  function ConfirmCommand(command: string): Option<Target> {
    if command == "/confirm_reboot" then Some(PowerTarget(Reboot))
    else if command == "/confirm_shutdown" then Some(PowerTarget(Shutdown))
    else if command == "/confirm_sleep" then Some(PowerTarget(Sleep))
    else if command == "/confirm_update" then Some(UpdateTarget)
    else if command == "/confirm_set" then Some(ConfigTarget)
    else None
  }

  ghost function CommandEvents(s: Settings, h: History, c: Context, command: string, args: string): History {
    if LockedAfter(h) && command !in ALLOWED_WHILE_LOCKED then []
    else if command == "/lock" then [LockSet(true, c.from)]
    else if command == "/unlock" then [LockSet(false, c.from)]
    else if command == "/wake" then [Executed(SendWake, c.works, c.from)]
    else if command == "/update" then UpdateEvents(s, c)
    else if RequestCommand(command).Some? then IssueEvents(c, Power(RequestCommand(command).value))
    else if ConfirmCommand(command).Some? then AttemptEvents(s, h, c, args, ConfirmCommand(command).value)
    else if SettingCommand(command).Some? then
      if args == "" then [InputOpened(SettingCommand(command).value, c.later, c.from)]
      else SettingEvents(s, c, SettingCommand(command).value, args)
    else []
  }

  ghost function CallbackEvents(s: Settings, h: History, c: Context, data: string, chatId: int): History {
    var parsed := ParseCallbackData(data);
    if parsed.None? then []
    else if LockedAfter(h) && parsed.value != SetLock(false) then []
    else match parsed.value
      case SetLock(locked) => [LockSet(locked, c.from)]
      case EditSetting(kind) => if chatId != 0 then [InputOpened(kind, c.later, c.from)] else []
      case Status(Refresh) => []
      case Status(Wake) => if chatId != 0 then [Executed(SendWake, c.works, c.from)] else []
      case Status(RebootButton) => if chatId != 0 then IssueEvents(c, Power(Reboot)) else []
      case Status(ShutdownButton) => if chatId != 0 then IssueEvents(c, Power(Shutdown)) else []
      case Decision(true, target, nonce) => AttemptEvents(s, h, c, nonce, target)
      case Decision(false, _, nonce) => [Attempted(nonce, c.now, c.from)]
  }

  function Command(text: string): string {
    Split(Split(text, ' ')[0], '@')[0]
  }

  function Arguments(text: string): string
  {
    var name := Split(text, ' ')[0];
    if |name| < |text| then Trim(text[|name| + 1..]) else ""
  }

  ghost function MessageEvents(s: Settings, h: History, c: Context, raw: string): History {
    var text := Trim(raw);
    if text == "" then []
    else if text[0] != '/' then
      var input := LiveInput(h, s.ttl);
      if input.None? then []
      else if c.now < input.value.expiresAt && !LockedAfter(h) then
        [InputTaken(c.from)] + SettingEvents(s, c, input.value.setting, text)
      else [InputTaken(c.from)]
    else CommandEvents(s, h, c, Command(text), Arguments(text))
  }

  /** The events of one update: none at all unless the sender is the allowed user, and none once
      the device restarts. */
  ghost function EventsOf(s: Settings, h: History, c: Context, u: Update): History {
    if !Authorized(s, c.from) || HaltedAfter(h) then []
    else match u
      case CallbackQuery(data, chatId) => CallbackEvents(s, h, c, data, chatId)
      case Message(text, _) => MessageEvents(s, h, c, text)
      case Other => []
  }

  // ---------- Safety over all runs ----------

  /** The history after a run of updates, from the start of the client. */
  ghost function HistoryAfter(s: Settings, us: seq<(Context, Update)>): History {
    if us == [] then []
    else
      var h := HistoryAfter(s, us[..|us| - 1]);
      h + EventsOf(s, h, us[|us| - 1].0, us[|us| - 1].1)
  }

  /** Locked means that nothing is pending. */
  lemma LockedMeansNothingPending(s: Settings, h: History)
    requires Lawful(s, h) && LockedAfter(h)
    ensures Live(h, s.ttl).None? && LiveInput(h, s.ttl).None?
  {
    assert LawfulAt(s, h, |h| - 1);
  }

  lemma AttemptIsLawful(s: Settings, h: History, c: Context, nonce: string, t: Target)
    requires Lawful(s, h) && Sound(s, c) && Authorized(s, c.from) && !LockedAfter(h) && !HaltedAfter(h)
    ensures Lawful(s, h + AttemptEvents(s, h, c, nonce, t))
  {
    var attempt := Attempted(nonce, c.now, c.from);
    var h' := h + [attempt];
    LawfulAppend(s, h, attempt);
    assert h'[..|h|] == h;
    var kind := Consumed(s, h, nonce, c.now);
    if kind.Some? && TargetMatches(t, kind.value) {
      var es := EffectEvents(c, kind.value);
      if es != [] {
        LawfulAppend(s, h', es[0]);
        assert h + ([attempt] + es) == h' + [es[0]];
      } else {
        assert h + ([attempt] + es) == h';
      }
    } else {
      assert h + ([attempt] + []) == h';
    }
  }

  lemma SingleIsLawful(s: Settings, h: History, es: History)
    requires Lawful(s, h) && |es| <= 1
    requires es != [] ==> MayFollow(s, h, es[0])
    ensures Lawful(s, h + es)
  {
    if es != [] {
      LawfulAppend(s, h, es[0]);
      assert es == [es[0]];
    } else {
      assert h + es == h;
    }
  }

  /** Every update keeps the history lawful. */
  lemma UpdateIsLawful(s: Settings, h: History, c: Context, u: Update)
    requires Lawful(s, h) && Sound(s, c)
    ensures Lawful(s, h + EventsOf(s, h, c, u))
  {
    hide Lawful, AttemptEvents;
    var es := EventsOf(s, h, c, u);
    if !Authorized(s, c.from) || u.Other? || HaltedAfter(h) {
      SingleIsLawful(s, h, es);
    } else if u.CallbackQuery? {
      CallbackIsLawful(s, h, c, u.data, u.chatId);
    } else {
      MessageIsLawful(s, h, c, u.text);
    }
  }

  lemma CallbackIsLawful(s: Settings, h: History, c: Context, data: string, chatId: int)
    requires Lawful(s, h) && Sound(s, c) && Authorized(s, c.from) && !HaltedAfter(h)
    ensures Lawful(s, h + CallbackEvents(s, h, c, data, chatId))
  {
    hide Lawful, AttemptEvents, ParseCallbackData, Authorized, LockedAfter;
    var es := CallbackEvents(s, h, c, data, chatId);
    match ParseCallbackData(data)
    case Some(Decision(true, target, nonce)) =>
      if LockedAfter(h) {
        SingleIsLawful(s, h, es);
      } else {
        AttemptIsLawful(s, h, c, nonce, target);
      }
    case _ =>
      SingleIsLawful(s, h, es);
  }

  lemma MessageIsLawful(s: Settings, h: History, c: Context, raw: string)
    requires Lawful(s, h) && Sound(s, c) && Authorized(s, c.from) && !HaltedAfter(h)
    ensures Lawful(s, h + MessageEvents(s, h, c, raw))
  {
    hide Lawful, AttemptEvents, Authorized, Trim, Command, Arguments, CommandEvents;
    var es := MessageEvents(s, h, c, raw);
    var text := Trim(raw);
    var input := LiveInput(h, s.ttl);
    if text != "" && text[0] == '/' {
      CommandIsLawful(s, h, c, Command(text), Arguments(text));
    } else if text == "" || input.None? {
      SingleIsLawful(s, h, es);
    } else {
      if LockedAfter(h) {
        LockedMeansNothingPending(s, h);
        assert false;
      }
      LawfulAppend(s, h, InputTaken(c.from));
      var h' := h + [InputTaken(c.from)];
      assert h'[..|h|] == h;
      var rest := es[1..];
      assert h + es == h' + rest;
      SingleIsLawful(s, h', rest);
    }
  }

  lemma CommandIsLawful(s: Settings, h: History, c: Context, command: string, args: string)
    requires Lawful(s, h) && Sound(s, c) && Authorized(s, c.from) && !HaltedAfter(h)
    ensures Lawful(s, h + CommandEvents(s, h, c, command, args))
  {
    hide Lawful, AttemptEvents, Authorized, LockedAfter, Confirmed;
    var es := CommandEvents(s, h, c, command, args);
    if ConfirmCommand(command).Some? && !LockedAfter(h) {
      AttemptIsLawful(s, h, c, args, ConfirmCommand(command).value);
      ConfirmCommandsAreConfirmations(command);
    } else {
      SingleIsLawful(s, h, es);
    }
  }

  lemma ConfirmCommandsAreConfirmations(command: string)
    requires ConfirmCommand(command).Some?
    ensures command !in ALLOWED_WHILE_LOCKED && command != "/wake" && command != "/update"
    ensures RequestCommand(command).None?
  {
  }

  lemma {:induction false} RunIsLawful(s: Settings, us: seq<(Context, Update)>)
    requires forall i :: 0 <= i < |us| ==> Sound(s, us[i].0)
    ensures Lawful(s, HistoryAfter(s, us))
  {
    if us != [] {
      RunIsLawful(s, us[..|us| - 1]);
      UpdateIsLawful(s, HistoryAfter(s, us[..|us| - 1]), us[|us| - 1].0, us[|us| - 1].1);
    }
  }

  predicate NeedsConfirmation(e: Event) {
    e.Executed? && !e.effect.SendWake?
  }

  predicate EndsConfirmation(e: Event) {
    e.Issued? || e.Attempted? || e == LockSet(true, e.from)
  }

  lemma {:induction false} FindIssue(h: History, ttl: nat) returns (i: nat)
    requires Live(h, ttl).Some?
    ensures i < |h| && h[i].Issued?
    ensures Live(h, ttl).value == Pending(h[i].kind, h[i].nonce, h[i].at + ttl)
    ensures forall m :: i < m < |h| ==> !EndsConfirmation(h[m])
  {
    if h[|h| - 1].Issued? {
      i := |h| - 1;
    } else {
      i := FindIssue(h[..|h| - 1], ttl);
    }
  }

  ghost predicate LastIssue(h: History, i: int, ttl: nat, p: Pending) {
    && 0 <= i < |h| && h[i].Issued? && p == Pending(h[i].kind, h[i].nonce, h[i].at + ttl)
    && forall m :: i < m < |h| ==> !EndsConfirmation(h[m])
  }

  /** The live confirmation, exactly: the last one issued, if no attempt and no lock came after it;
      it lives for the configured time. */
  lemma {:induction false} LiveExactlyWhen(h: History, ttl: nat, p: Pending)
    ensures Live(h, ttl) == Some(p) <==> exists i :: LastIssue(h, i, ttl, p)
  {
    if h != [] {
      var n := |h| - 1;
      LiveExactlyWhen(h[..n], ttl, p);
      if i :| LastIssue(h[..n], i, ttl, p) {
        assert !EndsConfirmation(h[n]) ==> LastIssue(h, i, ttl, p);
      }
      assert h[n].Issued? && p == Pending(h[n].kind, h[n].nonce, h[n].at + ttl) ==> LastIssue(h, n, ttl, p);
      if i :| LastIssue(h, i, ttl, p) {
        assert i < n ==> LastIssue(h[..n], i, ttl, p);
      }
    }
  }

  predicate EndsInput(e: Event) {
    e.InputOpened? || e.InputTaken? || e == LockSet(true, e.from)
  }

  ghost predicate LastInput(h: History, i: int, ttl: nat, p: PendingInput) {
    && 0 <= i < |h| && h[i].InputOpened? && p == PendingInput(h[i].setting, h[i].at + ttl)
    && forall m :: i < m < |h| ==> !EndsInput(h[m])
  }

  /** Likewise the input that is waited for. */
  lemma {:induction false} LiveInputExactlyWhen(h: History, ttl: nat, p: PendingInput)
    ensures LiveInput(h, ttl) == Some(p) <==> exists i :: LastInput(h, i, ttl, p)
  {
    if h != [] {
      var n := |h| - 1;
      LiveInputExactlyWhen(h[..n], ttl, p);
      if i :| LastInput(h[..n], i, ttl, p) {
        assert !EndsInput(h[n]) ==> LastInput(h, i, ttl, p);
      }
      assert h[n].InputOpened? && p == PendingInput(h[n].setting, h[n].at + ttl) ==> LastInput(h, n, ttl, p);
      if i :| LastInput(h, i, ttl, p) {
        assert i < n ==> LastInput(h[..n], i, ttl, p);
      }
    }
  }

  ghost predicate LastLock(h: History, i: int, on: bool) {
    0 <= i < |h| && h[i].LockSet? && h[i].locked == on && forall m :: i < m < |h| ==> !h[m].LockSet?
  }

  /** And the lock: the last one to be set decides. */
  lemma {:induction false} LockedExactlyWhen(h: History)
    ensures LockedAfter(h) <==> exists i :: LastLock(h, i, true)
  {
    if h != [] {
      var n := |h| - 1;
      LockedExactlyWhen(h[..n]);
      if i :| LastLock(h[..n], i, true) {
        assert !h[n].LockSet? ==> LastLock(h, i, true);
      }
      assert h[n].LockSet? && h[n].locked ==> LastLock(h, n, true);
      if i :| LastLock(h, i, true) {
        assert i < n ==> LastLock(h[..n], i, true);
      }
    }
  }

  /** `h[i]` is the issue behind the effect `h[k]`: it names exactly this operation and payload;
      the event just before the effect is an attempt with its nonce, within its time; between the
      two nothing else was issued, attempted or locked; both come from the allowed user; and a
      flashed manifest is verified and carries the version that was shown. */
  ghost predicate IsIssueOf(s: Settings, h: History, i: int, k: int)
    requires 0 <= k < |h| && h[k].Executed?
  {
    && 0 <= i < k - 1
    && h[i].Issued? && Authorized(s, h[i].from)
    && (match h[k].effect
        case RunPower(action) => h[i].kind == Power(action)
        case WriteConfig(change) => h[i].kind == Config(change)
        case FlashFirmware(m) => h[i].kind == FirmwareUpdate(m.version)
        case SendWake => false)
    && h[k - 1].Attempted? && h[k - 1].nonce == h[i].nonce != "" && Authorized(s, h[k - 1].from)
    && h[k - 1].at < h[i].at + s.ttl
    && (forall m :: i < m < k - 1 ==> !EndsConfirmation(h[m]))
    && (h[k].effect.FlashFirmware? ==> ManifestVerified(s.mac, h[k].effect.manifest))
  }

  lemma LawfulEffectHasIssue(s: Settings, h: History, k: int) returns (i: nat)
    requires Lawful(s, h) && 0 <= k < |h| && NeedsConfirmation(h[k])
    ensures IsIssueOf(s, h, i, k)
  {
    assert LawfulAt(s, h, k);
    assert h[..k][..k - 1] == h[..k - 1];
    i := FindIssue(h[..k - 1], s.ttl);
    hide Live, LockedAfter, Authorized;
    assert LawfulAt(s, h, i) && LawfulAt(s, h, k - 1);
  }

  // ---------- The update behind an effect ----------

  /** What the data of a button calls an effect. */
  ghost function ButtonWord(e: Effect): string {
    match e
    case RunPower(Reboot) => "reboot"
    case RunPower(Shutdown) => "shutdown"
    case RunPower(Sleep) => "sleep"
    case WriteConfig(_) => "config"
    case FlashFirmware(_) => "update"
    case SendWake => "wake"
  }

  /** What a typed confirmation calls it. */
  ghost function CommandWord(e: Effect): string {
    if e.WriteConfig? then "set" else ButtonWord(e)
  }

  /** The update is a confirm button, or a typed confirmation, of this effect and nonce. */
  ghost predicate Confirms(u: Update, nonce: string, e: Effect) {
    match u
    case CallbackQuery(data, _) => data == "confirm:" + ButtonWord(e) + ":" + nonce
    case Message(text, _) =>
      Command(Trim(text)) == "/confirm_" + CommandWord(e) && Arguments(Trim(text)) == nonce
    case Other => false
  }

  /** The events of one update, cut out of the history of a run. */
  ghost predicate StepOfRun(s: Settings, us: seq<(Context, Update)>, j: int, at: int)
    requires 0 <= j < |us|
  {
    var h, g := HistoryAfter(s, us), HistoryAfter(s, us[..j]);
    var es := EventsOf(s, g, us[j].0, us[j].1);
    && |g| == at && at + |es| <= |h|
    && h[at..at + |es|] == es
  }

  /** Every event of a run stems from one update. */
  lemma {:induction false} FindUpdate(s: Settings, us: seq<(Context, Update)>, k: int) returns (j: int, at: int)
    requires 0 <= k < |HistoryAfter(s, us)|
    ensures 0 <= j < |us| && StepOfRun(s, us, j, at)
    ensures at <= k < at + |EventsOf(s, HistoryAfter(s, us[..j]), us[j].0, us[j].1)|
    decreases |us|
  {
    hide EventsOf;
    var n := |us| - 1;
    var before := us[..n];
    if k < |HistoryAfter(s, before)| {
      j, at := FindUpdate(s, before, k);
      assert before[..j] == us[..j];
    } else {
      j, at := n, |HistoryAfter(s, before)|;
    }
  }

  /** An effect that needs a confirmation follows the attempt that the same update makes. */
  lemma EffectHasConfirmingUpdate(s: Settings, h: History, c: Context, u: Update, x: int)
    requires 0 <= x < |EventsOf(s, h, c, u)| && NeedsConfirmation(EventsOf(s, h, c, u)[x])
    ensures var es := EventsOf(s, h, c, u);
      && x == 1 && es[0].Attempted? && Confirms(u, es[0].nonce, es[1].effect)
      && Authorized(s, c.from) && !LockedAfter(h)
  {
    hide Authorized, LockedAfter, HaltedAfter, Trim, Command, Arguments, CallbackEvents, CommandEvents;
    match u {
      case CallbackQuery(data, chatId) => EffectOfCallback(s, h, c, data, chatId, x);
      case Message(text, _) =>
        if Trim(text) != "" && Trim(text)[0] == '/' {
          EffectOfCommand(s, h, c, Command(Trim(text)), Arguments(Trim(text)), x);
        }
    }
  }

  lemma EffectOfCallback(s: Settings, h: History, c: Context, data: string, chatId: int, x: int)
    requires 0 <= x < |CallbackEvents(s, h, c, data, chatId)|
    requires NeedsConfirmation(CallbackEvents(s, h, c, data, chatId)[x])
    ensures var es := CallbackEvents(s, h, c, data, chatId);
      x == 1 && es[0].Attempted? && Confirms(CallbackQuery(data, chatId), es[0].nonce, es[1].effect) && !LockedAfter(h)
  {
    var parsed := ParseCallbackData(data);
    hide ParseCallbackData, LockedAfter, AttemptEvents, Build, ButtonWord;
    if parsed.Some? && parsed.value.Decision? && parsed.value.confirm && !LockedAfter(h) {
      EffectOfAttempt(s, h, c, parsed.value.nonce, parsed.value.target, x);
      ParseInvertsBuild(data, parsed.value);
      ConfirmButtonText(parsed.value.target, parsed.value.nonce);
    }
  }

  lemma ConfirmButtonText(t: Target, nonce: string)
    ensures Build(Decision(true, t, nonce)) == "confirm:" + TargetSlug(t) + ":" + nonce
  {
    assert "confirm" + ":" == "confirm:";
  }

  lemma EffectOfAttempt(s: Settings, h: History, c: Context, nonce: string, t: Target, x: int)
    requires 0 <= x < |AttemptEvents(s, h, c, nonce, t)| && NeedsConfirmation(AttemptEvents(s, h, c, nonce, t)[x])
    ensures var es := AttemptEvents(s, h, c, nonce, t);
      && x == 1 && es[0] == Attempted(nonce, c.now, c.from)
      && TargetSlug(t) == ButtonWord(es[1].effect)
  {
    hide Consumed;
  }

  lemma EffectOfCommand(s: Settings, h: History, c: Context, command: string, args: string, x: int)
    requires 0 <= x < |CommandEvents(s, h, c, command, args)|
    requires NeedsConfirmation(CommandEvents(s, h, c, command, args)[x])
    ensures var es := CommandEvents(s, h, c, command, args);
      && x == 1 && es[0].Attempted? && es[0].nonce == args && !LockedAfter(h)
      && command == "/confirm_" + CommandWord(es[1].effect)
  {
    hide LockedAfter, AttemptEvents, ConfirmCommand, ButtonWord, CommandWord;
    if ConfirmCommand(command).Some? {
      ConfirmCommandsAreConfirmations(command);
      var t := ConfirmCommand(command).value;
      if !LockedAfter(h) {
        EffectOfAttempt(s, h, c, args, t, x);
        ConfirmCommandText(command, t, AttemptEvents(s, h, c, args, t)[1].effect);
      }
    }
  }

  lemma ConfirmCommandText(command: string, t: Target, e: Effect)
    requires ConfirmCommand(command) == Some(t) && TargetSlug(t) == ButtonWord(e)
    ensures command == "/confirm_" + CommandWord(e)
  {
  }

  /** Every power action, setting write and firmware flash in a run has its issue, and the update
      behind it is a confirm button, or a typed confirmation, of that operation and nonce. */
  lemma EffectWasConfirmed(s: Settings, us: seq<(Context, Update)>, k: int) returns (i: nat, j: nat)
    requires forall j :: 0 <= j < |us| ==> Sound(s, us[j].0)
    requires 0 <= k < |HistoryAfter(s, us)| && NeedsConfirmation(HistoryAfter(s, us)[k])
    ensures var h := HistoryAfter(s, us);
      && IsIssueOf(s, h, i, k)
      && j < |us| && StepOfRun(s, us, j, k - 1) && Confirms(us[j].1, h[i].nonce, h[k].effect)
  {
    hide HistoryAfter, Lawful, EventsOf, Confirms;
    var h := HistoryAfter(s, us);
    RunIsLawful(s, us);
    i := LawfulEffectHasIssue(s, h, k);
    var at: int;
    j, at := FindUpdate(s, us, k);
    var g := HistoryAfter(s, us[..j]);
    var es := EventsOf(s, g, us[j].0, us[j].1);
    assert h[at..at + |es|] == es;
    assert es[k - at] == h[k];
    EffectHasConfirmingUpdate(s, g, us[j].0, us[j].1, k - at);
    assert es[0] == h[at];
  }

  /** No issue serves two effects: later effects come from later issues. */
  lemma EffectsUseDistinctIssues(s: Settings, us: seq<(Context, Update)>, k: int, k': int) returns (i: nat, i': nat)
    requires forall j :: 0 <= j < |us| ==> Sound(s, us[j].0)
    requires 0 <= k < k' < |HistoryAfter(s, us)|
    requires NeedsConfirmation(HistoryAfter(s, us)[k]) && NeedsConfirmation(HistoryAfter(s, us)[k'])
    ensures i < k < i' < k'
    ensures IsIssueOf(s, HistoryAfter(s, us), i, k) && IsIssueOf(s, HistoryAfter(s, us), i', k')
  {
    hide HistoryAfter, Confirms, StepOfRun;
    var j;
    i, j := EffectWasConfirmed(s, us, k);
    i', j := EffectWasConfirmed(s, us, k');
    assert EndsConfirmation(HistoryAfter(s, us)[k - 1]);
  }

  /** A successful flash is the last thing a client does. */
  lemma NothingAfterRestart(s: Settings, us: seq<(Context, Update)>)
    requires forall j :: 0 <= j < |us| ==> Sound(s, us[j].0)
    ensures var h := HistoryAfter(s, us);
      forall k :: 0 <= k < |h| - 1 ==> !(h[k].Executed? && h[k].effect.FlashFirmware? && h[k].ok)
  {
    hide HistoryAfter, HaltedAfter;
    var h := HistoryAfter(s, us);
    RunIsLawful(s, us);
    forall k | 0 <= k < |h| - 1 ensures !Halts(h[k]) {
      assert LawfulAt(s, h, k + 1);
      HaltsForGood(h[..k + 1], k);
    }
  }

  /** Exactly a successful flash restarts the device. */
  lemma {:induction false} HaltedExactlyWhen(h: History)
    ensures HaltedAfter(h) <==>
      exists k :: 0 <= k < |h| && h[k].Executed? && h[k].effect.FlashFirmware? && h[k].ok
  {
    if h != [] {
      var n := |h| - 1;
      HaltedExactlyWhen(h[..n]);
      assert forall k :: 0 <= k < n ==> h[..n][k] == h[k];
    }
  }

  lemma {:induction false} HaltsForGood(h: History, k: int)
    requires 0 <= k < |h|
    ensures Halts(h[k]) ==> HaltedAfter(h)
  {
    if k < |h| - 1 {
      HaltsForGood(h[..|h| - 1], k);
    }
  }

  /** While locked, the only events are a renewed lock and an unlock, and they come only from the
      allowed user's /lock and /unlock and the unlock button. */
  lemma LockDeniesEverythingElse(s: Settings, h: History, c: Context, u: Update)
    requires Lawful(s, h) && LockedAfter(h)
    ensures var es := EventsOf(s, h, c, u);
      es != [] ==>
        && Authorized(s, c.from)
        && (|| (u.Message? && Command(Trim(u.text)) == "/lock" && es == [LockSet(true, c.from)])
            || (u.Message? && Command(Trim(u.text)) == "/unlock" && es == [LockSet(false, c.from)])
            || (u.CallbackQuery? && u.data == "lock:off" && es == [LockSet(false, c.from)]))
  {
    hide Lawful, LockedAfter, HaltedAfter, Authorized, Trim, Command, MessageEvents, CallbackEvents;
    if u.CallbackQuery? {
      LockedCallback(s, h, c, u.data, u.chatId);
    } else if u.Message? {
      LockedMeansNothingPending(s, h);
      LockedMessage(s, h, c, u.text);
    }
  }

  lemma LockedCallback(s: Settings, h: History, c: Context, data: string, chatId: int)
    requires LockedAfter(h)
    ensures var es := CallbackEvents(s, h, c, data, chatId);
      es != [] ==> data == "lock:off" && es == [LockSet(false, c.from)]
  {
    ParseInvertsBuild(data, SetLock(false));
    hide ParseCallbackData, LockedAfter, AttemptEvents;
  }

  lemma LockedMessage(s: Settings, h: History, c: Context, raw: string)
    requires LockedAfter(h) && LiveInput(h, s.ttl).None?
    ensures var es := MessageEvents(s, h, c, raw);
      es != [] ==>
        || (Command(Trim(raw)) == "/lock" && es == [LockSet(true, c.from)])
        || (Command(Trim(raw)) == "/unlock" && es == [LockSet(false, c.from)])
  {
    hide LockedAfter, Trim, Command, Arguments, LiveInput, AttemptEvents;
    var command := Command(Trim(raw));
    if command in ALLOWED_WHILE_LOCKED {
      assert command == "/status" || command == "/settings" || command == "/lock" || command == "/unlock";
    }
  }

  /** Pressing the confirm button of the live confirmation, in time and unlocked, executes it;
      a firmware update only if the fetched manifest still has the confirmed version. */
  lemma ConfirmButtonExecutes(s: Settings, h: History, c: Context, chatId: int)
    requires Authorized(s, c.from) && !LockedAfter(h) && !HaltedAfter(h) && Live(h, s.ttl).Some?
    requires var p := Live(h, s.ttl).value;
      c.now < p.expiresAt && p.nonce != "" && ':' !in p.nonce
    ensures var p := Live(h, s.ttl).value;
      var data := Build(Decision(true, TargetOf(p.kind), p.nonce));
      EventsOf(s, h, c, CallbackQuery(data, chatId)) ==
        [Attempted(p.nonce, c.now, c.from)] + EffectEvents(c, p.kind)
  {
    var p := Live(h, s.ttl).value;
    var button := Decision(true, TargetOf(p.kind), p.nonce);
    ParseInvertsBuild(Build(button), button);
    hide ParseCallbackData, Build, LockedAfter, HaltedAfter, Live, Authorized;
  }

  /** The command is the text up to the first space, without a bot name; the rest is trimmed. */
  lemma CommandIsRead(name: string, bot: string, args: string)
    requires ' ' !in name && '@' !in name && ' ' !in bot
    ensures Command(name) == name && Arguments(name) == ""
    ensures Command(name + " " + args) == name && Arguments(name + " " + args) == Trim(args)
    ensures Command(name + "@" + bot + " " + args) == name
    ensures Arguments(name + "@" + bot + " " + args) == Trim(args)
  {
    hide Trim;
    SplitWhole(name, ' ');
    SplitWhole(name, '@');
    SplitFirst(name, args, ' ');
    SplitFirst(name + "@" + bot, args, ' ');
    SplitFirst(name, bot, '@');
    var text, full := name + " " + args, name + "@" + bot + " " + args;
    assert text == name + [' '] + args && full == (name + "@" + bot) + [' '] + args;
    assert text[|name| + 1..] == args && full[|name + "@" + bot| + 1..] == args;
  }

  /** From typed request to effect: /reboot, /shutdown or /sleep, answered in time by the
      matching /confirm_ command with the issued nonce, runs that action and no other. */
  lemma TypedPowerActionRuns(s: Settings, h: History, a: PowerAction, ask: Context, confirm: Context, chatId: int)
    requires Authorized(s, ask.from) && Authorized(s, confirm.from) && !LockedAfter(h) && !HaltedAfter(h)
    requires |ask.nonce| == 6 && forall i :: 0 <= i < 6 ==> ask.nonce[i] in NONCE_CHARSET
    requires confirm.now < ask.later + s.ttl
    ensures var asked := EventsOf(s, h, ask, Message("/" + ActionSlug(a), chatId));
      && asked == [Issued(Power(a), ask.nonce, ask.later, ask.from)]
      && EventsOf(s, h + asked, confirm, Message("/confirm_" + ActionSlug(a) + " " + ask.nonce, chatId)) ==
           [Attempted(ask.nonce, confirm.now, confirm.from), Executed(RunPower(a), confirm.works, confirm.from)]
  {
    hide Live, LockedAfter, HaltedAfter, EventsOf, Authorized, ActionSlug, EffectsIn, LiveInput;
    RequestIsTyped(s, h, a, ask, chatId);
    var asked := IssueEvents(ask, Power(a));
    AppendEvent(h, asked[0], s.ttl);
    ConfirmationIsTyped(s, h + asked, a, confirm, ask.nonce, chatId);
  }

  lemma CommandMessage(s: Settings, h: History, c: Context, text: string, chatId: int)
    requires Authorized(s, c.from) && !HaltedAfter(h) && text != "" && text[0] == '/' && !IsWhitespace(text[|text| - 1])
    ensures EventsOf(s, h, c, Message(text, chatId)) == CommandEvents(s, h, c, Command(text), Arguments(text))
  {
    hide CommandEvents, Command, Arguments, Authorized, Trim;
    TrimKeeps(text);
  }

  lemma ConfirmCommandAttempts(s: Settings, h: History, c: Context, command: string, args: string, t: Target)
    requires !LockedAfter(h) && ConfirmCommand(command) == Some(t) && RequestCommand(command).None?
    requires command != "/lock" && command != "/unlock" && command != "/wake" && command != "/update"
    ensures CommandEvents(s, h, c, command, args) == AttemptEvents(s, h, c, args, t)
  {
    hide AttemptEvents, ConfirmCommand, RequestCommand, LockedAfter;
  }

  lemma RequestCommandIssues(s: Settings, h: History, c: Context, command: string, args: string, a: PowerAction)
    requires !LockedAfter(h) && RequestCommand(command) == Some(a)
    requires command != "/lock" && command != "/unlock" && command != "/wake" && command != "/update"
    ensures CommandEvents(s, h, c, command, args) == IssueEvents(c, Power(a))
  {
    hide ConfirmCommand, RequestCommand, LockedAfter;
  }

  lemma RequestIsTyped(s: Settings, h: History, a: PowerAction, c: Context, chatId: int)
    requires Authorized(s, c.from) && !LockedAfter(h) && !HaltedAfter(h)
    ensures EventsOf(s, h, c, Message("/" + ActionSlug(a), chatId)) == IssueEvents(c, Power(a))
  {
    hide *;
    var request := "/" + ActionSlug(a);
    RequestNames(a);
    CommandIsRead(request, "", "");
    CommandMessage(s, h, c, request, chatId);
    RequestCommandIssues(s, h, c, request, "", a);
  }

  lemma ConfirmationIsTyped(s: Settings, h: History, a: PowerAction, c: Context, nonce: string, chatId: int)
    requires Authorized(s, c.from) && !LockedAfter(h) && !HaltedAfter(h)
    requires |nonce| == 6 && forall i :: 0 <= i < 6 ==> nonce[i] in NONCE_CHARSET
    ensures EventsOf(s, h, c, Message("/confirm_" + ActionSlug(a) + " " + nonce, chatId)) ==
      AttemptEvents(s, h, c, nonce, PowerTarget(a))
  {
    hide *;
    var answer := "/confirm_" + ActionSlug(a);
    var text := answer + " " + nonce;
    NonceIsPlain(nonce);
    AnswerNames(a);
    CommandIsRead(answer, "", nonce);
    assert text[|text| - 1] == nonce[5];
    TrimKeeps(nonce);
    CommandMessage(s, h, c, text, chatId);
    ConfirmCommandAttempts(s, h, c, answer, nonce, PowerTarget(a));
  }

  lemma NonceIsPlain(nonce: string)
    requires |nonce| == 6 && forall i :: 0 <= i < 6 ==> nonce[i] in NONCE_CHARSET
    ensures !IsWhitespace(nonce[0]) && !IsWhitespace(nonce[5])
  {
    assert forall c :: c in NONCE_CHARSET ==> !IsWhitespace(c);
  }

  lemma RequestNames(a: PowerAction)
    ensures var request := "/" + ActionSlug(a);
      && RequestCommand(request) == Some(a) && ' ' !in request && '@' !in request
      && request != "/lock" && request != "/unlock" && request != "/wake" && request != "/update"
      && !IsWhitespace(request[|request| - 1])
  {
  }

  lemma AnswerNames(a: PowerAction)
    ensures var answer := "/confirm_" + ActionSlug(a);
      && ConfirmCommand(answer) == Some(PowerTarget(a)) && RequestCommand(answer).None?
      && ' ' !in answer && '@' !in answer
      && answer != "/lock" && answer != "/unlock" && answer != "/wake" && answer != "/update"
  {
  }

  // ---------- The client ----------

  /** An operation and whether it worked. */
  datatype Attempt = Attempt(effect: Effect, ok: bool)

  function EffectsIn(h: History): seq<Attempt> {
    if h == [] then []
    else EffectsIn(h[..|h| - 1]) + (if h[|h| - 1].Executed? then [Attempt(h[|h| - 1].effect, h[|h| - 1].ok)] else [])
  }

  /** What one more event does to everything that is derived from a history. */
  lemma AppendEvent(h: History, e: Event, ttl: nat)
    ensures Live(h + [e], ttl) == match e {
      case Issued(kind, nonce, at, _) => Some(Pending(kind, nonce, at + ttl))
      case Attempted(_, _, _) => None
      case LockSet(true, _) => None
      case _ => Live(h, ttl)
    }
    ensures LiveInput(h + [e], ttl) == match e {
      case InputOpened(setting, at, _) => Some(PendingInput(setting, at + ttl))
      case InputTaken(_) => None
      case LockSet(true, _) => None
      case _ => LiveInput(h, ttl)
    }
    ensures LockedAfter(h + [e]) == if e.LockSet? then e.locked else LockedAfter(h)
    ensures HaltedAfter(h + [e]) <==> HaltedAfter(h) || Halts(e)
    ensures EffectsIn(h + [e]) == EffectsIn(h) + if e.Executed? then [Attempt(e.effect, e.ok)] else []
  {
    assert (h + [e])[..|h|] == h;
  }

  class Client {
    const s: Settings
    const cursor: UpdateCursor.Cursor
    var pending: Option<Pending>
    var pendingInput: Option<PendingInput>
    var locked: bool
    /** What the outside world was asked to do, in order, and whether it did. */
    var performed: seq<Attempt>
    /** The device is restarting. */
    var halted: bool
    ghost var log: History

    /** The fields are caches of the history. */
    ghost predicate Valid()
      reads this
    {
      && pending == Live(log, s.ttl)
      && pendingInput == LiveInput(log, s.ttl)
      && locked == LockedAfter(log)
      && halted == HaltedAfter(log)
      && performed == EffectsIn(log)
    }

    constructor (s: Settings)
      ensures Valid() && log == [] && this.s == s
      ensures fresh(cursor) && cursor.State() == UpdateCursor.CursorState(0, false)
    {
      this.s := s;
      cursor := new UpdateCursor.Cursor();
      pending, pendingInput, locked, performed, halted, log := None, None, false, [], false, [];
    }

    method StartSettingInput(c: Context, kind: SettingKind)
      requires Valid()
      modifies this
      ensures Valid() && log == old(log) + [InputOpened(kind, c.later, c.from)]
    {
      AppendEvent(log, InputOpened(kind, c.later, c.from), s.ttl);
      pendingInput := Some(PendingInput(kind, c.later + s.ttl));
      log := log + [InputOpened(kind, c.later, c.from)];
    }

    /** Takes the pending input; an expired one is taken as well, but yields nothing. */
    method TakePendingInput(c: Context) returns (kind: Option<SettingKind>)
      requires Valid()
      modifies this
      ensures Valid()
      ensures var input := LiveInput(old(log), s.ttl);
        && log == old(log) + (if input.Some? then [InputTaken(c.from)] else [])
        && kind == if input.Some? && c.now < input.value.expiresAt then Some(input.value.setting) else None
    {
      if pendingInput.None? {
        return None;
      }
      var input := pendingInput.value;
      AppendEvent(log, InputTaken(c.from), s.ttl);
      pendingInput := None;
      log := log + [InputTaken(c.from)];
      return if c.now < input.expiresAt then Some(input.setting) else None;
    }

    method HandleSettingInput(c: Context, kind: SettingKind, raw: string)
      requires Valid()
      modifies this
      ensures Valid() && log == old(log) + SettingEvents(s, c, kind, raw)
    {
      var change := s.parse(kind, raw);
      if change.Some? {
        RequestConfirmation(c, Config(change.value));
      } else {
        StartSettingInput(c, kind);
      }
    }

    method HandleSetCommand(c: Context, kind: SettingKind, args: string)
      requires Valid()
      modifies this
      ensures Valid()
      ensures log == old(log) +
        if args == "" then [InputOpened(kind, c.later, c.from)] else SettingEvents(s, c, kind, args)
    {
      if args == "" {
        StartSettingInput(c, kind);
        return;
      }
      HandleSettingInput(c, kind, args);
    }

    /** Locking also discards what is pending. */
    method SetOperationLock(c: Context, on: bool)
      requires Valid()
      modifies this
      ensures Valid() && log == old(log) + [LockSet(on, c.from)]
      ensures on ==> pending.None? && pendingInput.None?
    {
      AppendEvent(log, LockSet(on, c.from), s.ttl);
      locked := on;
      if on {
        pending, pendingInput := None, None;
      }
      log := log + [LockSet(on, c.from)];
    }

    method Perform(c: Context, effect: Effect)
      requires Valid()
      modifies this
      ensures Valid() && log == old(log) + [Executed(effect, c.works, c.from)]
      ensures performed == old(performed) + [Attempt(effect, c.works)]
      ensures halted == (old(halted) || (c.works && effect.FlashFirmware?))
      ensures pending == old(pending) && pendingInput == old(pendingInput) && locked == old(locked)
    {
      AppendEvent(log, Executed(effect, c.works, c.from), s.ttl);
      performed := performed + [Attempt(effect, c.works)];
      halted := halted || (c.works && effect.FlashFirmware?);
      log := log + [Executed(effect, c.works, c.from)];
    }

    /** Issues a confirmation; whatever was pending before is replaced. */
    method RequestConfirmation(c: Context, kind: Kind)
      requires Valid()
      modifies this
      ensures Valid() && log == old(log) + IssueEvents(c, kind)
      ensures pending == Some(Pending(kind, c.nonce, c.later + s.ttl))
    {
      AppendEvent(log, Issued(kind, c.nonce, c.later, c.from), s.ttl);
      pending := Some(Pending(kind, c.nonce, c.later + s.ttl));
      log := log + [Issued(kind, c.nonce, c.later, c.from)];
    }

    /** Takes the pending confirmation, valid or not, so that it can never be used again. */
    method ConsumePending(c: Context, supplied: string) returns (kind: Option<Kind>)
      requires Valid()
      modifies this
      ensures Valid() && pending.None?
      ensures log == old(log) + [Attempted(supplied, c.now, c.from)]
      ensures kind == Consumed(s, old(log), supplied, c.now)
    {
      AppendEvent(log, Attempted(supplied, c.now, c.from), s.ttl);
      log := log + [Attempted(supplied, c.now, c.from)];
      if pending.None? {
        return None;
      }
      var p := pending.value;
      pending := None;
      if supplied != "" && p.nonce == supplied && c.now < p.expiresAt {
        return Some(p.kind);
      }
      return None;
    }

    method ExecuteConfirmed(c: Context, kind: Kind)
      requires Valid()
      modifies this
      ensures Valid() && log == old(log) + EffectEvents(c, kind)
    {
      match kind
      case Power(action) => Perform(c, RunPower(action));
      case Config(change) => Perform(c, WriteConfig(change));
      case FirmwareUpdate(version) =>
        if c.manifest.Some? && c.manifest.value.version == version {
          Perform(c, FlashFirmware(c.manifest.value));
        } else {
          assert log + [] == log;
        }
    }

    /** A typed or pressed confirmation of `target`. */
    method HandleConfirmation(c: Context, target: Target, supplied: string)
      requires Valid()
      modifies this
      ensures Valid() && log == old(log) + AttemptEvents(s, old(log), c, supplied, target)
    {
      var kind := ConsumePending(c, supplied);
      if kind.Some? && TargetMatches(target, kind.value) {
        ExecuteConfirmed(c, kind.value);
      }
    }

    /** Offers the fetched firmware, unless it is the running version. */
    method HandleUpdateCommand(c: Context)
      requires Valid()
      modifies this
      ensures Valid() && log == old(log) + UpdateEvents(s, c)
    {
      if c.manifest.None? {
        assert log + [] == log;
        return;
      }
      var order := Versions.CompareVersions(s.firmwareVersion, c.manifest.value.version);
      if order.Same? {
        assert log + [] == log;
        return;
      }
      RequestConfirmation(c, FirmwareUpdate(c.manifest.value.version));
    }

    method DispatchCommand(c: Context, command: string, args: string)
      requires Valid()
      modifies this
      ensures Valid() && log == old(log) + CommandEvents(s, old(log), c, command, args)
    {
      hide Live, LiveInput, LockedAfter, HaltedAfter, EffectsIn, AttemptEvents;
      assert log + [] == log;
      if locked && command !in ALLOWED_WHILE_LOCKED {
        return;
      }
      if command == "/lock" {
        SetOperationLock(c, true);
      } else if command == "/unlock" {
        SetOperationLock(c, false);
      } else if command == "/wake" {
        Perform(c, SendWake);
      } else if command == "/update" {
        HandleUpdateCommand(c);
      } else if RequestCommand(command).Some? {
        RequestConfirmation(c, Power(RequestCommand(command).value));
      } else if ConfirmCommand(command).Some? {
        HandleConfirmation(c, ConfirmCommand(command).value, args);
      } else if SettingCommand(command).Some? {
        HandleSetCommand(c, SettingCommand(command).value, args);
      }
    }

    method HandleCallbackQuery(c: Context, data: string, chatId: int)
      requires Valid()
      modifies this
      ensures Valid()
      ensures log == old(log) + if Authorized(s, c.from) then CallbackEvents(s, old(log), c, data, chatId) else []
    {
      hide Live, LiveInput, LockedAfter, HaltedAfter, EffectsIn, AttemptEvents, ParseCallbackData, Authorized;
      assert log + [] == log;
      if !Authorized(s, c.from) {
        return;
      }
      var parsed := ParseCallbackData(data);
      if parsed.None? || (locked && parsed.value != SetLock(false)) {
        return;
      }
      match parsed.value
      case EditSetting(kind) =>
        if chatId != 0 {
          StartSettingInput(c, kind);
        }
      case Status(action) =>
        if chatId != 0 {
          match action
          case Refresh =>
          case Wake => Perform(c, SendWake);
          case RebootButton => RequestConfirmation(c, Power(Reboot));
          case ShutdownButton => RequestConfirmation(c, Power(Shutdown));
        }
      case SetLock(on) => SetOperationLock(c, on);
      case Decision(confirm, target, nonce) =>
        if confirm {
          HandleConfirmation(c, target, nonce);
        } else {
          var _ := ConsumePending(c, nonce);
        }
    }

    method HandleMessage(c: Context, raw: string)
      requires Valid()
      modifies this
      ensures Valid()
      ensures log == old(log) + if Authorized(s, c.from) then MessageEvents(s, old(log), c, raw) else []
    {
      hide Live, LiveInput, LockedAfter, HaltedAfter, EffectsIn, Authorized, Trim, Command, Arguments, CommandEvents;
      assert log + [] == log;
      if !Authorized(s, c.from) {
        return;
      }
      var text := Trim(raw);
      if text == "" {
        return;
      }
      if text[0] != '/' {
        AppendEvent(log, InputTaken(c.from), s.ttl);
        var kind := TakePendingInput(c);
        if kind.Some? {
          if locked {
            return;
          }
          HandleSettingInput(c, kind.value, text);
        }
        return;
      }
      DispatchCommand(c, Command(text), Arguments(text));
    }

    method HandleUpdate(c: Context, u: Update)
      requires Valid()
      modifies this
      ensures Valid() && log == old(log) + EventsOf(s, old(log), c, u)
    {
      hide Live, LiveInput, LockedAfter, HaltedAfter, EffectsIn, Authorized, MessageEvents, CallbackEvents;
      if halted {
        assert log + [] == log;
        return;
      }
      match u
      case CallbackQuery(data, chatId) => HandleCallbackQuery(c, data, chatId);
      case Message(text, _) => HandleMessage(c, text);
      case Other => assert log + [] == log;
    }

    /** One response of getUpdates. Until the start-up backlog has been drained, it only moves
        the cursor; afterwards every update in it is handled, in order. */
    method ProcessUpdates(ids: seq<int>, updates: seq<(Context, Update)>)
      requires Valid() && |ids| == |updates|
      modifies this, cursor
      ensures Valid()
      ensures cursor.nextOffset == UpdateCursor.NextOffset(old(cursor.nextOffset), ids)
      ensures cursor.synced == (old(cursor.synced) || ids == [])
      ensures log == if old(cursor.synced) then Extended(s, old(log), updates) else old(log)
    {
      var dispatch := cursor.Advance(ids);
      if !dispatch {
        return;
      }
      for i := 0 to |updates|
        invariant Valid()
        invariant cursor.nextOffset == UpdateCursor.NextOffset(old(cursor.nextOffset), ids)
        invariant cursor.synced == (old(cursor.synced) || ids == [])
        invariant log == Extended(s, old(log), updates[..i])
      {
        HandleUpdate(updates[i].0, updates[i].1);
        assert updates[..i + 1][..i] == updates[..i];
      }
      assert updates[..|updates|] == updates;
    }
  }

  /** A history extended by a batch of updates. */
  ghost function Extended(s: Settings, h: History, us: seq<(Context, Update)>): History {
    if us == [] then h
    else
      var g := Extended(s, h, us[..|us| - 1]);
      g + EventsOf(s, g, us[|us| - 1].0, us[|us| - 1].1)
  }

  /** Batches compose: the history of the client is that of all dispatched updates in order. */
  lemma {:induction false} BatchesCompose(
    s: Settings, dispatched: seq<(Context, Update)>, batch: seq<(Context, Update)>)
    ensures Extended(s, HistoryAfter(s, dispatched), batch) == HistoryAfter(s, dispatched + batch)
  {
    hide EventsOf;
    if batch == [] {
      assert dispatched + batch == dispatched;
    } else {
      BatchesCompose(s, dispatched, batch[..|batch| - 1]);
      assert (dispatched + batch)[..|dispatched + batch| - 1] == dispatched + batch[..|batch| - 1];
    }
  }
}
