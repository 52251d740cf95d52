/** The callback data behind the chat buttons (firmware/src/telegram.rs). */
module Callbacks {
  import opened Wrappers
  import opened Text

  datatype PowerAction = Reboot | Shutdown | Sleep

  datatype SettingKind = PcIp | WolPort | Brightness

  datatype Target = PowerTarget(action: PowerAction) | ConfigTarget | UpdateTarget

  datatype StatusAction = Refresh | Wake | RebootButton | ShutdownButton

  datatype Callback =
    | Decision(confirm: bool, target: Target, nonce: string)
    | EditSetting(kind: SettingKind)
    | SetLock(locked: bool)
    | Status(action: StatusAction)

  function ActionSlug(a: PowerAction): string {
    match a
    case Reboot => "reboot"
    case Shutdown => "shutdown"
    case Sleep => "sleep"
  }

  function ActionFromSlug(s: string): Option<PowerAction> {
    if s == "reboot" then Some(Reboot)
    else if s == "shutdown" then Some(Shutdown)
    else if s == "sleep" then Some(Sleep)
    else None
  }

  function SettingSlug(k: SettingKind): string {
    match k
    case PcIp => "pc_ip"
    case WolPort => "wol_port"
    case Brightness => "brightness"
  }

  function SettingFromSlug(s: string): Option<SettingKind> {
    if s == "pc_ip" then Some(PcIp)
    else if s == "wol_port" then Some(WolPort)
    else if s == "brightness" then Some(Brightness)
    else None
  }

  function TargetSlug(t: Target): string {
    match t
    case PowerTarget(a) => ActionSlug(a)
    case ConfigTarget => "config"
    case UpdateTarget => "update"
  }

  function TargetFromSlug(s: string): Option<Target> {
    if s == "config" then Some(ConfigTarget)
    else if s == "update" then Some(UpdateTarget)
    else
      var a := ActionFromSlug(s);
      if a.Some? then Some(PowerTarget(a.value)) else None
  }

  function StatusSlug(a: StatusAction): string {
    match a
    case Refresh => "refresh"
    case Wake => "wake"
    case RebootButton => "reboot"
    case ShutdownButton => "shutdown"
  }

  /** The data that the firmware puts behind a button. */
  function Build(c: Callback): string {
    match c
    case Decision(confirm, target, nonce) =>
      (if confirm then "confirm" else "cancel") + ":" + TargetSlug(target) + ":" + nonce
    case EditSetting(kind) => "setedit:" + SettingSlug(kind)
    case SetLock(locked) => "lock:" + (if locked then "on" else "off")
    case Status(action) => "status:" + StatusSlug(action)
  }

  /** Reads the data of a pressed button; anything unexpected is refused. */
  function ParseCallbackData(data: string): Option<Callback> {
    ParseParts(Split(data, ':'))
  }

  function ParseParts(parts: seq<string>): Option<Callback> {
    if |parts| == 3 && parts[0] in {"confirm", "cancel"} && parts[2] != "" then
      var target := TargetFromSlug(parts[1]);
      if target.None? then None else Some(Decision(parts[0] == "confirm", target.value, parts[2]))
    else if |parts| == 2 && parts[0] == "setedit" then
      var kind := SettingFromSlug(parts[1]);
      if kind.None? then None else Some(EditSetting(kind.value))
    else if parts == ["lock", "on"] then Some(SetLock(true))
    else if parts == ["lock", "off"] then Some(SetLock(false))
    else if parts == ["status", "refresh"] then Some(Status(Refresh))
    else if parts == ["status", "wake"] then Some(Status(Wake))
    else if parts == ["status", "reboot"] then Some(Status(RebootButton))
    else if parts == ["status", "shutdown"] then Some(Status(ShutdownButton))
    else None
  }

  predicate WellFormedCallback(c: Callback) {
    c.Decision? ==> c.nonce != "" && ':' !in c.nonce
  }

  lemma SlugsHaveNoColon(t: Target, k: SettingKind, a: StatusAction)
    ensures ':' !in TargetSlug(t) && ':' !in SettingSlug(k) && ':' !in StatusSlug(a)
  {
  }

  /** The fields of built data. */
  function BuiltParts(c: Callback): seq<string> {
    match c
    case Decision(confirm, target, nonce) => [if confirm then "confirm" else "cancel", TargetSlug(target), nonce]
    case EditSetting(kind) => ["setedit", SettingSlug(kind)]
    case SetLock(locked) => ["lock", if locked then "on" else "off"]
    case Status(action) => ["status", StatusSlug(action)]
  }

  lemma JoinOfFew(a: string, b: string, c: string, sep: char)
    ensures Join([a, b], sep) == a + [sep] + b
    ensures Join([a, b, c], sep) == a + [sep] + b + [sep] + c
  {
    assert [a, b][1..] == [b];
    assert [b, c][1..] == [c];
    assert Join([b, c], sep) == b + [sep] + c;
    assert [a, b, c][1..] == [b, c];
    assert a + [sep] + (b + [sep] + c) == a + [sep] + b + [sep] + c;
  }

  lemma BuildJoinsParts(c: Callback)
    ensures Build(c) == Join(BuiltParts(c), ':')
  {
    hide TargetSlug, SettingSlug, StatusSlug, Join;
    var p := BuiltParts(c);
    if |p| == 3 {
      JoinOfFew(p[0], p[1], p[2], ':');
    } else {
      JoinOfFew(p[0], p[1], "", ':');
    }
  }

  lemma BuiltStringSplits(c: Callback)
    requires WellFormedCallback(c)
    ensures Split(Build(c), ':') == BuiltParts(c)
  {
    hide TargetSlug, SettingSlug, StatusSlug, Join, Split, Build;
    BuildJoinsParts(c);
    if c.Decision? { SlugsHaveNoColon(c.target, PcIp, Refresh); }
    if c.EditSetting? { SlugsHaveNoColon(ConfigTarget, c.kind, Refresh); }
    if c.Status? { SlugsHaveNoColon(ConfigTarget, PcIp, c.action); }
    SplitOfJoin(BuiltParts(c), ':');
  }

  lemma SlugsInvert(s: string, t: Target, k: SettingKind)
    ensures TargetFromSlug(s) == Some(t) <==> s == TargetSlug(t)
    ensures SettingFromSlug(s) == Some(k) <==> s == SettingSlug(k)
  {
  }

  lemma PartsInvert(parts: seq<string>, c: Callback)
    requires forall i :: 0 <= i < |parts| ==> ':' !in parts[i]
    ensures ParseParts(parts) == Some(c) <==> WellFormedCallback(c) && parts == BuiltParts(c)
  {
    hide TargetFromSlug, TargetSlug, SettingFromSlug, SettingSlug;
    if |parts| >= 2 {
      SlugsInvert(parts[1], if c.Decision? then c.target else ConfigTarget, if c.EditSetting? then c.kind else PcIp);
    }
    match c {
      case Decision(confirm, target, nonce) =>
        if |parts| == 3 {
          assert parts == [parts[0], parts[1], parts[2]];
        }
      case EditSetting(kind) =>
        if |parts| == 2 {
          assert parts == [parts[0], parts[1]];
        }
      case _ =>
    }
  }

  /** Building and parsing are inverse: data is accepted as a callback exactly when it is what
      the firmware builds for that callback, and the nonce is nonempty and free of colons. */
  lemma ParseInvertsBuild(data: string, c: Callback)
    ensures ParseCallbackData(data) == Some(c) <==> WellFormedCallback(c) && data == Build(c)
  {
    hide ParseParts, BuiltParts, Build;
    BuildJoinsParts(c);
    if WellFormedCallback(c) { BuiltStringSplits(c); }
    PartsInvert(Split(data, ':'), c);
    JoinOfSplit(data, ':');
  }

  // ---------- Confirmation nonces ----------

  const NONCE_CHARSET := "23456789ABCDEFGHJKLMNPQRSTUVWXYZ"

  /** Digits and capital letters, without the easily confused 0, 1, I and O. */
  lemma NonceAlphabet(c: char)
    ensures c in NONCE_CHARSET <==> ('2' <= c <= '9' || 'A' <= c <= 'Z') && c != 'I' && c != 'O'
  {
  }

  /** Six characters chosen by hardware random numbers. */
  method GenerateNonce(randoms: seq<nat>) returns (nonce: string)
    requires |randoms| == 6
    ensures |nonce| == 6 && forall i :: 0 <= i < 6 ==> nonce[i] == NONCE_CHARSET[randoms[i] % |NONCE_CHARSET|]
  {
    nonce := seq(6, i requires 0 <= i < 6 => NONCE_CHARSET[randoms[i] % |NONCE_CHARSET|]);
  }

  /** Every nonce the firmware generates survives the trip through a button. */
  lemma GeneratedNoncesRoundTrip(nonce: string, confirm: bool, target: Target)
    requires |nonce| == 6 && forall i :: 0 <= i < 6 ==> nonce[i] in NONCE_CHARSET
    ensures ParseCallbackData(Build(Decision(confirm, target, nonce))) == Some(Decision(confirm, target, nonce))
  {
    assert ':' !in NONCE_CHARSET;
    ParseInvertsBuild(Build(Decision(confirm, target, nonce)), Decision(confirm, target, nonce));
  }
}
