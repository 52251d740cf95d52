/** What each button and each command of the chat does, on the texts themselves
    (firmware/src/telegram.rs). */
module TelegramControls {
  import opened Wrappers
  import opened Text
  import opened Callbacks
  import opened TelegramClient
  import Versions

  /** The update comes from the allowed user, and neither a restart nor a lock stands in its way. */
  ghost predicate Open(s: Settings, h: History, c: Context) {
    Authorized(s, c.from) && !HaltedAfter(h) && !LockedAfter(h)
  }

  // ---------- Confirm and cancel ----------

  /** A word in a button's data and the confirmations that it stands for. */
  ghost predicate ButtonFits(word: string, k: Kind) {
    || (word == "reboot" && k == Power(Reboot))
    || (word == "shutdown" && k == Power(Shutdown))
    || (word == "sleep" && k == Power(Sleep))
    || (word == "config" && k.Config?)
    || (word == "update" && k.FirmwareUpdate?)
  }

  /** What carrying out a confirmation adds to the history. */
  ghost predicate CarriedOut(c: Context, k: Kind, es: History) {
    match k
    case Power(action) => es == [Executed(RunPower(action), c.works, c.from)]
    case Config(change) => es == [Executed(WriteConfig(change), c.works, c.from)]
    case FirmwareUpdate(version) =>
      if c.manifest.Some? && c.manifest.value.version == version
      then es == [Executed(FlashFirmware(c.manifest.value), c.works, c.from)]
      else es == []
  }

  /** The confirmation that an attempt with this nonce meets, in time. */
  ghost predicate Meets(s: Settings, h: History, c: Context, nonce: string) {
    && Live(h, s.ttl).Some?
    && Live(h, s.ttl).value.nonce == nonce && c.now < Live(h, s.ttl).value.expiresAt
  }

  lemma WordOfTarget(word: string, t: Target)
    requires word == TargetSlug(t)
    ensures forall k :: ButtonFits(word, k) <==> TargetMatches(t, k)
  {
  }

  lemma TargetOfWord(word: string, k: Kind) returns (t: Target)
    requires ButtonFits(word, k)
    ensures word == TargetSlug(t)
  {
    t := match k
      case Power(a) => PowerTarget(a)
      case Config(_) => ConfigTarget
      case FirmwareUpdate(_) => UpdateTarget;
  }

  /** The cancel button never executes anything. It uses the pending confirmation up, whatever its
      word and nonce, and leaves a pending input alone. */
  lemma CancelButton(s: Settings, h: History, c: Context, word: string, k: Kind, nonce: string, chatId: int)
    requires ButtonFits(word, k) && nonce != "" && ':' !in nonce
    ensures var es := EventsOf(s, h, c, CallbackQuery("cancel:" + word + ":" + nonce, chatId));
      if Open(s, h, c) then
        && es == [Attempted(nonce, c.now, c.from)]
        && Live(h + es, s.ttl).None? && LiveInput(h + es, s.ttl) == LiveInput(h, s.ttl)
      else es == []
  {
    var t := TargetOfWord(word, k);
    var button := Decision(false, t, nonce);
    assert Build(button) == "cancel:" + word + ":" + nonce by { assert "cancel" + ":" == "cancel:"; }
    ParseInvertsBuild(Build(button), button);
    AppendEvent(h, Attempted(nonce, c.now, c.from), s.ttl);
    hide ParseCallbackData, Build, Authorized, LockedAfter, HaltedAfter, Live, LiveInput, TargetSlug, EffectsIn;
  }

  /** The confirm button carries out the live confirmation if its nonce and word fit and it is in
      time; otherwise it only uses the confirmation up. */
  lemma ConfirmButton(s: Settings, h: History, c: Context, word: string, k: Kind, nonce: string, chatId: int)
    requires ButtonFits(word, k) && nonce != "" && ':' !in nonce
    ensures var es := EventsOf(s, h, c, CallbackQuery("confirm:" + word + ":" + nonce, chatId));
      if Open(s, h, c) then
        && es != [] && es[0] == Attempted(nonce, c.now, c.from)
        && if Meets(s, h, c, nonce) && ButtonFits(word, Live(h, s.ttl).value.kind)
           then CarriedOut(c, Live(h, s.ttl).value.kind, es[1..])
           else es == [es[0]]
      else es == []
  {
    var t := TargetOfWord(word, k);
    var button := Decision(true, t, nonce);
    ConfirmButtonText(t, nonce);
    ParseInvertsBuild(Build(button), button);
    AttemptIs(s, h, c, word, t, nonce);
    hide ParseCallbackData, Build, Authorized, LockedAfter, HaltedAfter, TargetSlug, AttemptEvents, ButtonFits, Meets;
  }

  lemma AttemptIs(s: Settings, h: History, c: Context, word: string, t: Target, nonce: string)
    requires word == TargetSlug(t)
    ensures var es := AttemptEvents(s, h, c, nonce, t);
      && es != [] && es[0] == Attempted(nonce, c.now, c.from)
      && if nonce != "" && Meets(s, h, c, nonce) && ButtonFits(word, Live(h, s.ttl).value.kind)
         then CarriedOut(c, Live(h, s.ttl).value.kind, es[1..])
         else es == [es[0]]
  {
    WordOfTarget(word, t);
    hide Live, TargetSlug, TargetMatches, ButtonFits;
  }

  // ---------- The other buttons ----------

  /** The status message's buttons: shutting down and restarting ask first, waking does not. */
  lemma StatusButtons(s: Settings, h: History, c: Context, chatId: int)
    requires Open(s, h, c) && chatId != 0
    ensures EventsOf(s, h, c, CallbackQuery("status:refresh", chatId)) == []
    ensures EventsOf(s, h, c, CallbackQuery("status:wake", chatId)) == [Executed(SendWake, c.works, c.from)]
    ensures EventsOf(s, h, c, CallbackQuery("status:reboot", chatId)) ==
      [Issued(Power(Reboot), c.nonce, c.later, c.from)]
    ensures EventsOf(s, h, c, CallbackQuery("status:shutdown", chatId)) ==
      [Issued(Power(Shutdown), c.nonce, c.later, c.from)]
  {
    StatusTexts();
    hide ParseCallbackData, Build, Authorized, LockedAfter, HaltedAfter;
    ParseInvertsBuild("status:refresh", Status(Refresh));
    ParseInvertsBuild("status:wake", Status(StatusAction.Wake));
    ParseInvertsBuild("status:reboot", Status(RebootButton));
    ParseInvertsBuild("status:shutdown", Status(ShutdownButton));
  }

  lemma StatusTexts()
    ensures Build(Status(Refresh)) == "status:refresh" && Build(Status(StatusAction.Wake)) == "status:wake"
    ensures Build(Status(RebootButton)) == "status:reboot" && Build(Status(ShutdownButton)) == "status:shutdown"
  {
  }

  /** The settings menu's buttons wait for a value each. */
  lemma SettingButtons(s: Settings, h: History, c: Context, chatId: int)
    requires Open(s, h, c) && chatId != 0
    ensures EventsOf(s, h, c, CallbackQuery("setedit:pc_ip", chatId)) == [InputOpened(PcIp, c.later, c.from)]
    ensures EventsOf(s, h, c, CallbackQuery("setedit:wol_port", chatId)) == [InputOpened(WolPort, c.later, c.from)]
    ensures EventsOf(s, h, c, CallbackQuery("setedit:brightness", chatId)) ==
      [InputOpened(Brightness, c.later, c.from)]
  {
    SettingTexts();
    hide ParseCallbackData, Build, Authorized, LockedAfter, HaltedAfter;
    ParseInvertsBuild("setedit:pc_ip", EditSetting(PcIp));
    ParseInvertsBuild("setedit:wol_port", EditSetting(WolPort));
    ParseInvertsBuild("setedit:brightness", EditSetting(Brightness));
  }

  lemma SettingTexts()
    ensures Build(EditSetting(PcIp)) == "setedit:pc_ip" && Build(EditSetting(WolPort)) == "setedit:wol_port"
    ensures Build(EditSetting(Brightness)) == "setedit:brightness"
  {
  }

  /** The lock's buttons; unlocking works while locked too. */
  lemma LockButtons(s: Settings, h: History, c: Context, chatId: int)
    requires Authorized(s, c.from) && !HaltedAfter(h)
    ensures EventsOf(s, h, c, CallbackQuery("lock:off", chatId)) == [LockSet(false, c.from)]
    ensures EventsOf(s, h, c, CallbackQuery("lock:on", chatId)) ==
      if LockedAfter(h) then [] else [LockSet(true, c.from)]
  {
    LockTexts();
    hide ParseCallbackData, Build, Authorized, LockedAfter, HaltedAfter;
    ParseInvertsBuild("lock:on", SetLock(true));
    ParseInvertsBuild("lock:off", SetLock(false));
  }

  lemma LockTexts()
    ensures Build(SetLock(true)) == "lock:on" && Build(SetLock(false)) == "lock:off"
  {
  }

  /** Without a chat, only the decision and lock buttons have an effect. */
  lemma ButtonsWithoutChat(s: Settings, h: History, c: Context, data: string)
    ensures (exists k :: ParseCallbackData(data) == Some(EditSetting(k))) ||
            (exists a :: ParseCallbackData(data) == Some(Status(a)))
      ==> EventsOf(s, h, c, CallbackQuery(data, 0)) == []
  {
    hide ParseCallbackData, Authorized, LockedAfter, HaltedAfter;
  }

  // ---------- Commands ----------

  /** A command word, and a text that trimming leaves alone. */
  ghost predicate IsCommandWord(name: string) {
    |name| > 1 && name[0] == '/' && ' ' !in name && '@' !in name && !IsWhitespace(name[|name| - 1])
  }

  ghost predicate IsPlain(text: string) {
    text != "" && !IsWhitespace(text[0]) && !IsWhitespace(text[|text| - 1])
  }

  lemma TypedCommand(s: Settings, h: History, c: Context, name: string, args: string, chatId: int)
    requires Authorized(s, c.from) && !HaltedAfter(h) && IsCommandWord(name)
    ensures EventsOf(s, h, c, Message(name, chatId)) == CommandEvents(s, h, c, name, "")
    ensures IsPlain(args) ==>
      EventsOf(s, h, c, Message(name + " " + args, chatId)) == CommandEvents(s, h, c, name, args)
  {
    CommandIsRead(name, "", args);
    hide CommandEvents, Command, Arguments, Authorized, HaltedAfter, EventsOf;
    CommandMessage(s, h, c, name, chatId);
    if IsPlain(args) {
      var text := name + " " + args;
      assert text[|text| - 1] == args[|args| - 1];
      TrimKeeps(args);
      CommandMessage(s, h, c, text, chatId);
    }
  }

  /** Locking and unlocking, whatever the state of the lock. */
  lemma LockCommands(s: Settings, h: History, c: Context, on: bool, chatId: int)
    requires Authorized(s, c.from) && !HaltedAfter(h)
    ensures EventsOf(s, h, c, Message(if on then "/lock" else "/unlock", chatId)) == [LockSet(on, c.from)]
  {
    var name := if on then "/lock" else "/unlock";
    assert IsCommandWord(name) && name in ALLOWED_WHILE_LOCKED && (name == "/lock" <==> on);
    hide EventsOf, Authorized, LockedAfter, HaltedAfter, AttemptEvents, IsCommandWord;
    TypedCommand(s, h, c, name, "", chatId);
  }

  /** Waking needs no confirmation. */
  lemma WakeCommand(s: Settings, h: History, c: Context, chatId: int)
    requires Open(s, h, c)
    ensures EventsOf(s, h, c, Message("/wake", chatId)) == [Executed(SendWake, c.works, c.from)]
  {
    assert IsCommandWord("/wake");
    hide EventsOf, Authorized, LockedAfter, HaltedAfter, AttemptEvents, IsCommandWord;
    TypedCommand(s, h, c, "/wake", "", chatId);
  }

  ghost predicate PowerWord(name: string, a: PowerAction) {
    (name == "/reboot" && a == Reboot) || (name == "/shutdown" && a == Shutdown) || (name == "/sleep" && a == Sleep)
  }

  /** Every other power action is only asked for. */
  lemma PowerCommands(s: Settings, h: History, c: Context, name: string, a: PowerAction, chatId: int)
    requires Open(s, h, c) && PowerWord(name, a)
    ensures EventsOf(s, h, c, Message(name, chatId)) == [Issued(Power(a), c.nonce, c.later, c.from)]
  {
    PowerWordIs(name, a);
    hide EventsOf, Authorized, LockedAfter, HaltedAfter, ActionSlug, PowerWord;
    RequestIsTyped(s, h, a, c, chatId);
  }

  lemma PowerWordIs(name: string, a: PowerAction)
    requires PowerWord(name, a)
    ensures name == "/" + ActionSlug(a)
  {
    assert "/" + "reboot" == "/reboot" && "/" + "shutdown" == "/shutdown" && "/" + "sleep" == "/sleep";
  }

  /** An update is offered if a verified manifest names another version, newer or not. */
  lemma UpdateCommand(s: Settings, h: History, c: Context, chatId: int)
    requires Open(s, h, c)
    ensures var es := EventsOf(s, h, c, Message("/update", chatId));
      if c.manifest.None? then es == []
      else
        var current, offered := Versions.Parse(s.firmwareVersion), Versions.Parse(c.manifest.value.version);
        if current.Some? && current == offered then es == []
        else es == [Issued(FirmwareUpdate(c.manifest.value.version), c.nonce, c.later, c.from)]
  {
    assert IsCommandWord("/update");
    hide EventsOf, Authorized, LockedAfter, HaltedAfter, AttemptEvents, IsCommandWord;
    TypedCommand(s, h, c, "/update", "", chatId);
    if c.manifest.Some? {
      Versions.MajorDecidesFirst(s.firmwareVersion, c.manifest.value.version);
    }
    hide Versions.CompareVersions, Versions.Parse;
  }

  /** What a value for a setting leads to: a valid one asks for confirmation, an invalid one is
      waited for again. */
  ghost predicate ValueTaken(s: Settings, c: Context, k: SettingKind, value: string, es: History) {
    if s.parse(k, value).Some? then es == [Issued(Config(s.parse(k, value).value), c.nonce, c.later, c.from)]
    else es == [InputOpened(k, c.later, c.from)]
  }

  ghost predicate SetWord(name: string, k: SettingKind) {
    || (name == "/set_ip" && k == PcIp)
    || (name == "/set_wol_port" && k == WolPort)
    || (name == "/set_brightness" && k == Brightness)
  }

  /** The setting commands take a value, or wait for one. */
  lemma SettingCommands(
    s: Settings, h: History, c: Context, name: string, k: SettingKind, value: string, chatId: int)
    requires Open(s, h, c) && SetWord(name, k) && IsPlain(value)
    ensures EventsOf(s, h, c, Message(name, chatId)) == [InputOpened(k, c.later, c.from)]
    ensures ValueTaken(s, c, k, value, EventsOf(s, h, c, Message(name + " " + value, chatId)))
  {
    SetWordIs(name, k);
    TypedCommand(s, h, c, name, value, chatId);
    hide EventsOf, Authorized, LockedAfter, HaltedAfter, AttemptEvents, SetWord, SettingCommand, RequestCommand;
    hide ConfirmCommand;
  }

  lemma SetWordIs(name: string, k: SettingKind)
    requires SetWord(name, k)
    ensures IsCommandWord(name) && SettingCommand(name) == Some(k)
    ensures ConfirmCommand(name).None? && RequestCommand(name).None?
    ensures name != "/lock" && name != "/unlock" && name != "/wake" && name != "/update"
  {
  }

  /** The word of a typed confirmation; a setting is confirmed as "set". */
  ghost function TypedWord(word: string): string {
    if word == "config" then "set" else word
  }

  /** A typed confirmation does what the confirm button does. */
  lemma ConfirmCommands(s: Settings, h: History, c: Context, word: string, k: Kind, nonce: string, chatId: int)
    requires Open(s, h, c) && ButtonFits(word, k) && IsPlain(nonce)
    ensures var es := EventsOf(s, h, c, Message("/confirm_" + TypedWord(word) + " " + nonce, chatId));
      && es != [] && es[0] == Attempted(nonce, c.now, c.from)
      && if Meets(s, h, c, nonce) && ButtonFits(word, Live(h, s.ttl).value.kind)
         then CarriedOut(c, Live(h, s.ttl).value.kind, es[1..])
         else es == [es[0]]
  {
    var t := TargetOfWord(word, k);
    var name := "/confirm_" + TypedWord(word);
    TypedConfirmation(name, word, t);
    TypedCommand(s, h, c, name, nonce, chatId);
    AttemptIs(s, h, c, word, t, nonce);
    hide EventsOf, Authorized, LockedAfter, HaltedAfter, AttemptEvents, ConfirmCommand, RequestCommand, ButtonFits;
    ConfirmCommandAttempts(s, h, c, name, nonce, t);
  }

  lemma TypedConfirmation(name: string, word: string, t: Target)
    requires word == TargetSlug(t) && name == "/confirm_" + TypedWord(word)
    ensures IsCommandWord(name) && ConfirmCommand(name) == Some(t) && RequestCommand(name).None?
    ensures name != "/lock" && name != "/unlock" && name != "/wake" && name != "/update"
  {
    match t
    case PowerTarget(a) =>
      AnswerNames(a);
      PowerWordsEnd(a);
      assert name == "/confirm_" + ActionSlug(a);
    case ConfigTarget =>
      assert name == "/confirm_set";
    case UpdateTarget =>
      assert name == "/confirm_update";
  }

  lemma PowerWordsEnd(a: PowerAction)
    ensures ActionSlug(a) != "config" && ActionSlug(a) != "" && !IsWhitespace(ActionSlug(a)[|ActionSlug(a)| - 1])
  {
  }

  /** Anything else that starts with a slash does nothing. */
  lemma OtherCommands(s: Settings, h: History, c: Context, name: string, args: string, chatId: int)
    requires Authorized(s, c.from) && !HaltedAfter(h) && IsCommandWord(name) && IsPlain(args)
    requires name !in {
      "/lock", "/unlock", "/wake", "/update", "/reboot", "/shutdown", "/sleep", "/set_ip", "/set_wol_port",
      "/set_brightness", "/confirm_reboot", "/confirm_shutdown", "/confirm_sleep", "/confirm_update", "/confirm_set"}
    ensures EventsOf(s, h, c, Message(name, chatId)) == []
    ensures EventsOf(s, h, c, Message(name + " " + args, chatId)) == []
  {
    TypedCommand(s, h, c, name, args, chatId);
    hide EventsOf, Authorized, LockedAfter, HaltedAfter, AttemptEvents;
  }

  /** A text that is no command is the value that is waited for, if one is; too late, it is only
      used up. */
  lemma PlainText(s: Settings, h: History, c: Context, text: string, chatId: int)
    requires Open(s, h, c) && IsPlain(text) && text[0] != '/'
    ensures var es := EventsOf(s, h, c, Message(text, chatId));
      match LiveInput(h, s.ttl)
      case None => es == []
      case Some(input) =>
        && es != [] && es[0] == InputTaken(c.from)
        && if c.now < input.expiresAt then ValueTaken(s, c, input.setting, text, es[1..]) else es == [es[0]]
  {
    TrimKeeps(text);
    hide Trim, Authorized, LockedAfter, HaltedAfter, LiveInput;
  }

  /** Whoever else writes changes nothing. */
  lemma StrangersChangeNothing(s: Settings, h: History, c: Context, u: Update)
    requires !Authorized(s, c.from)
    ensures EventsOf(s, h, c, u) == []
  {
  }
}
