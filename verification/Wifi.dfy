/** WiFi settings in flash, the boot decision, and the reboot loop that retries a failing connection. */
module Wifi {
  import opened Common

  // ---------------------------------------------------------------- flash

  /** A value in flash; reading a key with the other type fails like reading a missing key. */
  datatype Entry = U8(n: Byte) | Blob(bytes: seq<Byte>)

  type Nvs = map<string, Entry>

  const MODE := "wifi_mode"
  const SSID := "wifi_ssid"
  const PASS := "wifi_pass"
  const AP_PASS := "ap_pass"
  const FAILS := "sta_fail_cnt"

  const SSID_BUFFER := 33
  const PASS_BUFFER := 65

  function GetU8(n: Nvs, key: string): Option<Byte> {
    if key in n && n[key].U8? then Some(n[key].n) else None
  }

  function GetBlob(n: Nvs, key: string): Option<seq<Byte>> {
    if key in n && n[key].Blob? then Some(n[key].bytes) else None
  }

  /** A C string: what precedes the first zero. */
  function CString(buffer: seq<Byte>): (s: seq<Byte>) {
    if buffer == [] || buffer[0] == 0 then [] else [buffer[0]] + CString(buffer[1..])
  }

  /** Reads a string blob into a zeroed buffer of the given size, if it fits; the last byte is always
      a terminator. */
  function LoadString(n: Nvs, key: string, size: nat): Option<seq<Byte>>
    requires size > 0
  {
    var blob := GetBlob(n, key);
    if blob.None? || |blob.value| > size then None
    else Some(CString(if |blob.value| == size then blob.value[..size - 1] else blob.value))
  }

  datatype Settings = Settings(mode: Byte, ssid: seq<Byte>, pass: seq<Byte>, apPass: seq<Byte>)

  function OrEmpty(s: Option<seq<Byte>>): seq<Byte> {
    if s.Some? then s.value else []
  }

  function Load(n: Nvs): Option<Settings> {
    var mode := GetU8(n, MODE);
    var ssid := LoadString(n, SSID, SSID_BUFFER);
    var pass := LoadString(n, PASS, PASS_BUFFER);
    var ap := LoadString(n, AP_PASS, PASS_BUFFER);
    if mode.None? then None
    else if ssid.None? && mode.value == 1 then None
    else if pass.None? && mode.value == 1 then None
    else if ap.None? && mode.value == 2 then None
    else if mode.value == 1 && OrEmpty(ssid) == [] then None
    else if mode.value == 2 && OrEmpty(ap) == [] then None
    else Some(Settings(mode.value, OrEmpty(ssid), OrEmpty(pass), OrEmpty(ap)))
  }

  function Stored(s: seq<Byte>): Entry {
    Blob(s + [0])
  }

  /** Null pointers are None. */
  function Save(n: Nvs, mode: Byte, ssid: Option<seq<Byte>>, pass: Option<seq<Byte>>, ap: Option<seq<Byte>>): Nvs {
    var a := n[MODE := U8(mode)];
    var b := if mode == 1 && ssid.Some? then
               var c := a[SSID := Stored(ssid.value)];
               if pass.Some? then c[PASS := Stored(pass.value)] else c
             else a - {SSID, PASS};
    if mode == 2 && ap.Some? then b[AP_PASS := Stored(ap.value)] else b - {AP_PASS}
  }

  function Erase(n: Nvs): Nvs {
    n - {MODE, SSID, PASS, AP_PASS, FAILS}
  }

  function FailCount(n: Nvs): Byte {
    var c := GetU8(n, FAILS);
    if c.Some? then c.value else 0
  }

  function SetFailCount(n: Nvs, count: Byte): Nvs {
    n[FAILS := U8(count)]
  }

  // ---------------------------------------------------------------- validation

  /** Strings handed over have no zero byte inside. */
  predicate IsCString(s: seq<Byte>) {
    forall i :: 0 <= i < |s| ==> s[i] != 0
  }

  predicate ValidSsid(s: Option<seq<Byte>>) {
    s.Some? && 1 <= |s.value| <= 32 && forall i :: 0 <= i < |s.value| ==> 32 <= s.value[i] <= 126
  }

  predicate ValidPassword(s: Option<seq<Byte>>) {
    s.Some? && 8 <= |s.value| <= 63
  }

  /** The test of a network name: one to 32 printable characters. */
  method CheckSsid(s: Option<seq<Byte>>) returns (ok: bool)
    ensures ok <==> s.Some? && 1 <= |s.value| <= 32 && forall i :: 0 <= i < |s.value| ==> 32 <= s.value[i] <= 126
  {
    if s.None? || s.value == [] { return false; }
    if |s.value| > 32 { return false; }
    for i := 0 to |s.value|
      invariant forall j :: 0 <= j < i ==> 32 <= s.value[j] <= 126
    {
      if s.value[i] < 32 || s.value[i] > 126 { return false; }
    }
    return true;
  }

  /** The test of a password, of a network's or of the access point's own: 8 to 63 characters. */
  method CheckPassword(s: Option<seq<Byte>>) returns (ok: bool)
    ensures ok <==> s.Some? && 8 <= |s.value| <= 63
  {
    if s.None? { return false; }
    if |s.value| < 8 { return false; }
    if |s.value| > 63 { return false; }
    return true;
  }

  predicate Valid(mode: int, ssid: Option<seq<Byte>>, pass: Option<seq<Byte>>, ap: Option<seq<Byte>>) {
    if mode == 1 then ValidSsid(ssid) && ValidPassword(pass)
    else mode == 2 && ValidPassword(ap)
  }

  predicate CStrings(pass: Option<seq<Byte>>, ap: Option<seq<Byte>>) {
    && (pass.Some? ==> IsCString(pass.value))
    && (ap.Some? ==> IsCString(ap.value))
  }

  // ---------------------------------------------------------------- save and load

  lemma {:induction false} CStringOfTerminated(s: seq<Byte>)
    requires IsCString(s)
    ensures CString(s + [0]) == s && CString(s) == s
  {
    if s != [] {
      assert (s + [0])[1..] == s[1..] + [0];
      CStringOfTerminated(s[1..]);
    }
  }

  lemma {:induction false} LoadStored(n: Nvs, key: string, size: nat, s: seq<Byte>)
    requires key in n && n[key] == Stored(s) && IsCString(s) && |s| < size
    ensures LoadString(n, key, size) == Some(s)
  {
    CStringOfTerminated(s);
    assert (s + [0])[..|s|] == s;
  }

  /** Settings that pass validation come back from flash unchanged for their mode, over whatever flash
      held before, and the failure count is untouched. */
  lemma {:induction false} SaveLoad(n: Nvs, mode: Byte, ssid: Option<seq<Byte>>, pass: Option<seq<Byte>>, ap: Option<seq<Byte>>)
    requires Valid(mode, ssid, pass, ap) && CStrings(pass, ap)
    ensures var m := Save(n, mode, ssid, pass, ap);
            && Load(m) == Some(if mode == 1 then Settings(1, ssid.value, pass.value, [])
                               else Settings(2, [], [], ap.value))
            && FailCount(m) == FailCount(n)
  {
    var m := Save(n, mode, ssid, pass, ap);
    if mode == 1 {
      LoadStored(m, SSID, SSID_BUFFER, ssid.value);
      LoadStored(m, PASS, PASS_BUFFER, pass.value);
      hide LoadString;
      assert LoadString(m, AP_PASS, PASS_BUFFER) == None by { NotStored(m, AP_PASS); }
    } else {
      LoadStored(m, AP_PASS, PASS_BUFFER, ap.value);
      hide LoadString;
      assert LoadString(m, SSID, SSID_BUFFER) == None by { NotStored(m, SSID); }
      assert LoadString(m, PASS, PASS_BUFFER) == None by { NotStored(m, PASS); }
    }
  }

  lemma {:induction false} NotStored(n: Nvs, key: string)
    requires key !in n
    ensures forall size: nat :: size > 0 ==> LoadString(n, key, size) == None
  {}

  // ---------------------------------------------------------------- boot

  const STA_FAIL_REBOOT_MAX := 3

  datatype Mode = FirstBoot | Sta | Ap

  /** What a boot meets: whether the radio starts, and whether the station connects. */
  datatype Radio = Radio(starts: bool, connects: bool)

  /** What the radio was last told: an open access point, one with a password, or a network to join. */
  datatype Air = Open | Protected(pass: seq<Byte>) | Joined(ssid: seq<Byte>, pass: seq<Byte>)

  /** A boot either settles in a mode or reboots. */
  datatype Outcome = Rests(mode: Mode, air: Air) | Reboots

  /** The station branch loads the settings again. */
  function BootSta(n: Nvs, connects: bool): (Nvs, Outcome) {
    var s := Load(n);
    var air := if s.Some? then Joined(s.value.ssid, s.value.pass) else Joined([], []);
    if connects then (SetFailCount(n, 0), Rests(Sta, air))
    else
      var fails := (FailCount(n) + 1) % 256;
      var counted := SetFailCount(n, fails);
      (if fails >= STA_FAIL_REBOOT_MAX then SetFailCount(Erase(counted), 0) else counted, Reboots)
  }

  function Boot(n: Nvs, r: Radio): (Nvs, Outcome) {
    if !r.starts then (n, Rests(FirstBoot, Open))
    else
      var loaded := Load(n);
      if loaded.None? then (n, Rests(FirstBoot, Open))
      else if loaded.value.mode == 1 && loaded.value.ssid == [] then (Erase(n), Rests(FirstBoot, Open))
      else if loaded.value.mode == 2 && loaded.value.apPass == [] then (Erase(n), Rests(FirstBoot, Open))
      else if loaded.value.mode == 1 then BootSta(n, r.connects)
      else if loaded.value.mode == 2 then (n, Rests(Ap, Protected(loaded.value.apPass)))
      else (n, Rests(FirstBoot, Open))
  }

  /** Flash holds a string for the key, of no more bytes than the buffer takes. */
  predicate Holds(n: Nvs, key: string, size: nat) {
    key in n && n[key].Blob? && |n[key].bytes| <= size
  }

  /** Which settings load, over any content of flash: those of a known mode that have what their mode needs, a
      name of the network with its password or a password of the access point, in 33 and 65 bytes at most with
      their terminators; name and access point password are not empty. */
  lemma {:induction false} LoadsIff(n: Nvs)
    ensures Load(n).Some? <==>
            && "wifi_mode" in n && n["wifi_mode"].U8?
            && (n["wifi_mode"].n == 1 ==>
                  && Holds(n, "wifi_ssid", 33) && Holds(n, "wifi_pass", 65)
                  && n["wifi_ssid"].bytes != [] && n["wifi_ssid"].bytes[0] != 0)
            && (n["wifi_mode"].n == 2 ==>
                  Holds(n, "ap_pass", 65) && n["ap_pass"].bytes != [] && n["ap_pass"].bytes[0] != 0)
  {
    if Holds(n, SSID, SSID_BUFFER) { EmptyIff(n, SSID, SSID_BUFFER); }
    if Holds(n, AP_PASS, PASS_BUFFER) { EmptyIff(n, AP_PASS, PASS_BUFFER); }
    hide CString;
  }

  lemma {:induction false} EmptyIff(n: Nvs, key: string, size: nat)
    requires size > 1 && Holds(n, key, size)
    ensures LoadString(n, key, size).Some?
    ensures LoadString(n, key, size).value == [] <==> n[key].bytes == [] || n[key].bytes[0] == 0
  {}

  /** A string that loads is what flash holds up to the first zero, cut to leave room for a terminator. */
  lemma {:induction false} LoadsUpToZero(n: Nvs, key: string, size: nat)
    requires size > 0 && LoadString(n, key, size).Some?
    ensures var s, bytes := LoadString(n, key, size).value, n[key].bytes;
            && Holds(n, key, size) && s <= bytes && |s| < size && IsCString(s)
            && (|s| == |bytes| || |s| == size - 1 || bytes[|s|] == 0)
  {
    var bytes := n[key].bytes;
    var buffer := if |bytes| == size then bytes[..size - 1] else bytes;
    UpToZero(buffer);
    hide CString;
  }

  lemma {:induction false} UpToZero(buffer: seq<Byte>)
    ensures var s := CString(buffer);
            s <= buffer && IsCString(s) && (|s| == |buffer| || buffer[|s|] == 0)
  {
    if buffer != [] && buffer[0] != 0 {
      UpToZero(buffer[1..]);
    }
  }

  /** The boot's own integrity checks never fire: loading has refused such settings already. */
  lemma {:induction false} IntegrityChecksAreRedundant(n: Nvs)
    ensures var loaded := Load(n);
            loaded.Some? ==> !(loaded.value.mode == 1 && loaded.value.ssid == [])
                             && !(loaded.value.mode == 2 && loaded.value.apPass == [])
  {}

  /** Where a boot leads, whatever flash holds: with a radio that starts, settings of mode 2 make an access point
      with their password, and those of mode 1 a station or a reboot; anything else an open access point. */
  lemma {:induction false} BootByMode(n: Nvs, r: Radio)
    ensures var s, o := Load(n), Boot(n, r).1;
            if r.starts && s.Some? && s.value.mode == 2 then o == Rests(Ap, Protected(s.value.apPass))
            else if r.starts && s.Some? && s.value.mode == 1
            then o == if r.connects then Rests(Sta, Joined(s.value.ssid, s.value.pass)) else Reboots
            else o == Rests(FirstBoot, Open)
  {
    IntegrityChecksAreRedundant(n);
    hide Load, SetFailCount, FailCount, Erase;
  }

  /** Boots until the device rests or the radio's history runs out. */
  function BootLoop(n: Nvs, radio: seq<Radio>): (Nvs, Outcome)
    decreases |radio|
  {
    if radio == [] then (n, Reboots)
    else
      var (m, o) := Boot(n, radio[0]);
      if o.Rests? then (m, o) else BootLoop(m, radio[1..])
  }

  /** How many boots the device can need before it rests. */
  function BootsNeeded(n: Nvs): (k: nat)
    ensures 1 <= k <= 5
  {
    if Load(n).None? || Load(n).value.mode != 1 then 1
    else if FailCount(n) == 255 then 5
    else if FailCount(n) >= 2 then 2
    else 4 - FailCount(n)
  }

  lemma {:induction false} ErasedMeansFirstBoot(n: Nvs)
    ensures Load(SetFailCount(Erase(n), 0)) == None
  {}

  lemma {:induction false} LoadIgnoresCount(n: Nvs, count: Byte)
    ensures Load(SetFailCount(n, count)) == Load(n) && FailCount(SetFailCount(n, count)) == count
  {}

  /** One boot that does not rest brings the device strictly closer to resting. */
  lemma {:induction false} BootProgress(n: Nvs, r: Radio)
    ensures var (m, o) := Boot(n, r);
            && (o.Reboots? ==> BootsNeeded(m) < BootsNeeded(n))
            && (o.Rests? && o.mode == Sta ==> FailCount(m) == 0 && Load(m) == Load(n))
            && (o.Rests? && o.mode != Sta ==> m == n)
            && (BootsNeeded(n) == 1 ==> o.Rests?)
  {
    IntegrityChecksAreRedundant(n);
    var fails := (FailCount(n) + 1) % 256;
    LoadIgnoresCount(n, fails);
    LoadIgnoresCount(n, 0);
    ErasedMeansFirstBoot(SetFailCount(n, fails));
    hide Load, SetFailCount, FailCount, Erase;
  }

  /** Main result: whatever flash holds and whatever the radio does, the device rests within the bound,
      at most 4 boots unless the stored count is 255; and the count is 0 when it rests as a station. */
  lemma {:induction false} AlwaysRests(n: Nvs, radio: seq<Radio>)
    requires |radio| >= BootsNeeded(n)
    ensures BootLoop(n, radio).1.Rests?
    ensures BootLoop(n, radio).1.mode == Sta ==> FailCount(BootLoop(n, radio).0) == 0
    decreases |radio|
  {
    BootProgress(n, radio[0]);
    var (m, o) := Boot(n, radio[0]);
    hide Boot, BootsNeeded, FailCount;
    if o.Reboots? {
      AlwaysRests(m, radio[1..]);
    }
  }

  predicate NeverConnects(radio: seq<Radio>) {
    forall i :: 0 <= i < |radio| ==> radio[i] == Radio(true, false)
  }

  /** The bound is reached: when every connection fails, the device reboots until the last of them. */
  lemma {:induction false} BoundIsReached(n: Nvs, radio: seq<Radio>)
    requires |radio| < BootsNeeded(n) && NeverConnects(radio)
    ensures BootLoop(n, radio).1 == Reboots
    decreases |radio|
  {
    if radio != [] {
      IntegrityChecksAreRedundant(n);
      var fails := (FailCount(n) + 1) % 256;
      LoadIgnoresCount(n, fails);
      ErasedMeansFirstBoot(SetFailCount(n, fails));
      var (m, o) := Boot(n, radio[0]);
      assert radio[0] == Radio(true, false);
      assert o == Reboots && BootsNeeded(m) == BootsNeeded(n) - 1 by { hide Load, SetFailCount, FailCount, Erase; }
      hide Boot, BootsNeeded;
      BoundIsReached(m, radio[1..]);
    }
  }

  // ---------------------------------------------------------------- whole lives

  datatype Event =
    | PowerOn(r: Radio)
    | SaveSettings(mode: int, ssid: Option<seq<Byte>>, pass: Option<seq<Byte>>, ap: Option<seq<Byte>>)
    | FactoryReset

  /** Refused settings change nothing. */
  function After(n: Nvs, e: Event): Nvs {
    match e
    case PowerOn(r) => Boot(n, r).0
    case SaveSettings(mode, ssid, pass, ap) => if Valid(mode, ssid, pass, ap) then Save(n, mode, ssid, pass, ap) else n
    case FactoryReset => SetFailCount(Erase(n), 0)
  }

  predicate Proper(e: Event) {
    e.SaveSettings? ==> CStrings(e.pass, e.ap)
  }

  function Run(n: Nvs, events: seq<Event>): Nvs
    decreases |events|
  {
    if events == [] then n else Run(After(n, events[0]), events[1..])
  }

  /** What the user last asked for and the device has not given up: the settings, and how many
      connection attempts have failed since the last success or reset. */
  datatype Intent = Intent(settings: Option<Settings>, failures: nat)

  /** The intent is kept through failed attempts and given up with the third in a row. */
  function Remember(i: Intent, e: Event): Intent {
    match e
    case FactoryReset => Intent(None, 0)
    case SaveSettings(mode, ssid, pass, ap) =>
      if !Valid(mode, ssid, pass, ap) then i
      else if mode == 1 then i.(settings := Some(Settings(1, ssid.value, pass.value, [])))
      else i.(settings := Some(Settings(2, [], [], ap.value)))
    case PowerOn(r) =>
      if r.starts && i.settings.Some? && i.settings.value.mode == 1 then
        if r.connects then i.(failures := 0)
        else if i.failures == 2 then Intent(None, 0)
        else i.(failures := i.failures + 1)
      else i
  }

  function RunIntent(i: Intent, events: seq<Event>): Intent
    decreases |events|
  {
    if events == [] then i else RunIntent(Remember(i, events[0]), events[1..])
  }

  /** Flash represents the intent. */
  ghost predicate Represents(n: Nvs, i: Intent) {
    && Load(n) == i.settings && FailCount(n) as int == i.failures <= 2
    && (i.settings.Some? ==> i.settings.value.mode in {1, 2})
  }

  lemma {:induction false} StepRepresents(n: Nvs, i: Intent, e: Event)
    requires Represents(n, i) && Proper(e)
    ensures Represents(After(n, e), Remember(i, e))
  {
    match e
    case FactoryReset =>
      ErasedMeansFirstBoot(n);
      LoadIgnoresCount(Erase(n), 0);
      hide Load, SetFailCount, FailCount, Erase;
    case SaveSettings(mode, ssid, pass, ap) =>
      if Valid(mode, ssid, pass, ap) {
        SaveLoad(n, mode, ssid, pass, ap);
        hide Load, FailCount, Save, Valid;
      }
    case PowerOn(r) =>
      IntegrityChecksAreRedundant(n);
      var fails := (FailCount(n) + 1) % 256;
      LoadIgnoresCount(n, fails);
      LoadIgnoresCount(n, 0);
      ErasedMeansFirstBoot(SetFailCount(n, fails));
      LoadIgnoresCount(Erase(SetFailCount(n, fails)), 0);
      hide Load, SetFailCount, FailCount, Erase;
  }

  lemma {:induction false} RunRepresents(n: Nvs, i: Intent, events: seq<Event>)
    requires Represents(n, i) && forall e :: e in events ==> Proper(e)
    ensures Represents(Run(n, events), RunIntent(i, events))
    decreases |events|
  {
    if events != [] {
      StepRepresents(n, i, events[0]);
      hide Represents, After, Remember;
      RunRepresents(After(n, events[0]), Remember(i, events[0]), events[1..]);
    }
  }

  /** In every life of the device from empty flash, what a boot loads is exactly what the user last
      validly saved, unless it was given up by a reset or by three failed connections without a success
      between them; the count stored at every boot is at most 2, so the device rests within 4 boots.
      (Saving does not clear the count: new settings inherit the failures of the old.) */
  lemma {:induction false} EveryLifeKeepsTheIntent(events: seq<Event>, radio: seq<Radio>)
    requires (forall e :: e in events ==> Proper(e)) && |radio| >= 4
    ensures var n := Run(map[], events);
            && Load(n) == RunIntent(Intent(None, 0), events).settings
            && FailCount(n) <= 2
            && BootLoop(n, radio).1.Rests?
  {
    RunRepresents(map[], Intent(None, 0), events);
    AlwaysRests(Run(map[], events), radio);
  }

  /** How a device that remembers the intent comes to rest, with a radio that starts: as set up, and as a
      station exactly if one of the attempts that are left connects. */
  ghost predicate RestsAsIntended(i: Intent, radio: seq<Radio>, o: Outcome) {
    match i.settings
    case None => o == Rests(FirstBoot, Open)
    case Some(s) =>
      if s.mode == 2 then o == Rests(Ap, Protected(s.apPass))
      else if exists k :: 0 <= k < |radio| && k < 3 - i.failures && radio[k].connects
      then o == Rests(Sta, Joined(s.ssid, s.pass))
      else o == Rests(FirstBoot, Open)
  }

  lemma {:induction false} OneBoot(n: Nvs, i: Intent, r: Radio)
    requires Represents(n, i)
    ensures var o := Boot(n, r).1;
            && (!r.starts ==> o == Rests(FirstBoot, Open))
            && (r.starts && i.settings.None? ==> o == Rests(FirstBoot, Open))
            && (r.starts && i.settings.Some? && i.settings.value.mode == 2 ==>
                  o == Rests(Ap, Protected(i.settings.value.apPass)))
            && (r.starts && i.settings.Some? && i.settings.value.mode == 1 ==>
                  o == if r.connects then Rests(Sta, Joined(i.settings.value.ssid, i.settings.value.pass)) else Reboots)
  {
    BootByMode(n, r);
    hide Load, Boot, FailCount;
  }

  lemma {:induction false} LoopRests(n: Nvs, i: Intent, radio: seq<Radio>)
    requires Represents(n, i) && |radio| >= 4 - i.failures && forall k :: 0 <= k < |radio| ==> radio[k].starts
    ensures RestsAsIntended(i, radio, BootLoop(n, radio).1)
    decreases |radio|
  {
    var r := radio[0];
    OneBoot(n, i, r);
    StepRepresents(n, i, PowerOn(r));
    var m, j := Boot(n, r).0, Remember(i, PowerOn(r));
    if Boot(n, r).1.Reboots? {
      hide Boot, Represents;
      if i.failures < 2 {
        LoopRests(m, j, radio[1..]);
        AttemptsLeft(i, radio);
      } else {
        OneBoot(m, j, radio[1]);
        assert radio[1..][0] == radio[1];
      }
    }
  }

  lemma {:induction false} AttemptsLeft(i: Intent, radio: seq<Radio>)
    requires radio != [] && !radio[0].connects && i.failures < 2
    ensures (exists k :: 0 <= k < |radio| && k < 3 - i.failures && radio[k].connects) <==>
            (exists k :: 0 <= k < |radio[1..]| && k < 2 - i.failures && radio[1..][k].connects)
  {
    if k :| 0 <= k < |radio| && k < 3 - i.failures && radio[k].connects {
      assert radio[1..][k - 1].connects;
    }
    if k :| 0 <= k < |radio[1..]| && k < 2 - i.failures && radio[1..][k].connects {
      assert radio[k + 1].connects;
    }
  }

  /** In every life of the device, with a radio that starts, it comes to rest as the user last validly asked:
      without settings, or with the third failed attempt in a row, as an open access point; with access point
      settings as one with that password; with station settings in that network, exactly if one of the
      attempts left connects. A boot whose radio does not start rests as an open access point. */
  lemma {:induction false} EveryLifeRestsAsIntended(events: seq<Event>, radio: seq<Radio>)
    requires (forall e :: e in events ==> Proper(e)) && |radio| >= 4
    ensures var n, i := Run(map[], events), RunIntent(Intent(None, 0), events);
            && i.failures <= 2
            && ((forall k :: 0 <= k < |radio| ==> radio[k].starts) ==> RestsAsIntended(i, radio, BootLoop(n, radio).1))
            && (!radio[0].starts ==> BootLoop(n, radio).1 == Rests(FirstBoot, Open))
  {
    var n, i := Run(map[], events), RunIntent(Intent(None, 0), events);
    RunRepresents(map[], Intent(None, 0), events);
    OneBoot(n, i, radio[0]);
    if forall k :: 0 <= k < |radio| ==> radio[k].starts {
      LoopRests(n, i, radio);
    }
    hide Run, RunIntent, Boot, RestsAsIntended;
  }

  // ---------------------------------------------------------------- the objects

  class WifiNvsStore {
    var nvs: Nvs

    constructor ()
      ensures nvs == map[]
    {
      nvs := map[];
    }

    method LoadSettings() returns (ok: bool, mode: Byte, ssid: seq<Byte>, pass: seq<Byte>, ap: seq<Byte>)
      ensures ok == Load(nvs).Some?
      ensures ok ==> Load(nvs).value == Settings(mode, ssid, pass, ap)
    {
      mode, ssid, pass, ap := 0, [], [], [];
      var raw := GetU8(nvs, MODE);
      if raw.None? { return false, 0, ssid, pass, ap; }
      mode := raw.value;
      var r := LoadString(nvs, SSID, SSID_BUFFER);
      ssid := OrEmpty(r);
      if r.None? && mode == 1 { return false, 0, ssid, pass, ap; }
      r := LoadString(nvs, PASS, PASS_BUFFER);
      pass := OrEmpty(r);
      if r.None? && mode == 1 { return false, 0, ssid, pass, ap; }
      r := LoadString(nvs, AP_PASS, PASS_BUFFER);
      ap := OrEmpty(r);
      if r.None? && mode == 2 { return false, 0, ssid, pass, ap; }
      if mode == 1 && ssid == [] { return false, 0, ssid, pass, ap; }
      if mode == 2 && ap == [] { return false, 0, ssid, pass, ap; }
      ok := true;
    }

    method SaveSettings(mode: Byte, ssid: Option<seq<Byte>>, pass: Option<seq<Byte>>, ap: Option<seq<Byte>>)
      modifies this
      ensures nvs == Save(old(nvs), mode, ssid, pass, ap)
    {
      nvs := nvs[MODE := U8(mode)];
      if mode == 1 && ssid.Some? {
        nvs := nvs[SSID := Stored(ssid.value)];
        if pass.Some? {
          nvs := nvs[PASS := Stored(pass.value)];
        }
      } else {
        nvs := nvs - {SSID, PASS};
      }
      if mode == 2 && ap.Some? {
        nvs := nvs[AP_PASS := Stored(ap.value)];
      } else {
        nvs := nvs - {AP_PASS};
      }
    }

    method EraseAll()
      modifies this
      ensures nvs == Erase(old(nvs))
    {
      nvs := nvs - {MODE, SSID, PASS, AP_PASS, FAILS};
    }

    method SetStaFailCount(count: Byte)
      modifies this
      ensures nvs == SetFailCount(old(nvs), count)
    {
      nvs := nvs[FAILS := U8(count)];
    }
  }

  class WifiApSta {
    const store: WifiNvsStore
    var mode: Mode
    var air: Air

    constructor (s: WifiNvsStore)
      ensures store == s && mode == FirstBoot && air == Open
    {
      store := s;
      mode := FirstBoot;
      air := Open;
    }

    method BootFirstBoot()
      modifies this
      ensures mode == FirstBoot && air == Open
    {
      air := Open;
      mode := FirstBoot;
    }

    method BootAp(pass: seq<Byte>)
      modifies this
      ensures mode == Ap && air == Protected(pass)
    {
      air := Protected(pass);
      mode := Ap;
    }

    method BootStation(connects: bool) returns (reboots: bool)
      modifies this, store
      ensures store.nvs == BootSta(old(store.nvs), connects).0
      ensures BootSta(old(store.nvs), connects).1 == if reboots then Reboots else Rests(mode, air)
      ensures reboots ==> mode == old(mode)
    {
      var ok, storedMode, ssid, pass, ap := store.LoadSettings();
      air := if ok then Joined(ssid, pass) else Joined([], []);
      if connects {
        store.SetStaFailCount(0);
        mode := Sta;
        return false;
      }
      var fails: Byte := (FailCount(store.nvs) + 1) % 256;
      store.SetStaFailCount(fails);
      if fails >= STA_FAIL_REBOOT_MAX {
        store.EraseAll();
        store.SetStaFailCount(0);
      }
      return true;
    }

    method BootDevice(r: Radio) returns (reboots: bool)
      modifies this, store
      ensures store.nvs == Boot(old(store.nvs), r).0
      ensures Boot(old(store.nvs), r).1 == if reboots then Reboots else Rests(mode, air)
    {
      if !r.starts {
        BootFirstBoot();
        return false;
      }
      var ok, storedMode, ssid, pass, ap := store.LoadSettings();
      if !ok {
        BootFirstBoot();
        return false;
      }
      // The boot's own integrity checks: LoadSettings has refused such settings already.
      if storedMode == 1 && ssid == [] {
        assert false;
      }
      if storedMode == 2 && ap == [] {
        assert false;
      }
      if storedMode == 1 {
        reboots := BootStation(r.connects);
      } else if storedMode == 2 {
        BootAp(ap);
        reboots := false;
      } else {
        BootFirstBoot();
        reboots := false;
      }
    }

    method SaveSettingsAndReboot(newMode: int, ssid: Option<seq<Byte>>, pass: Option<seq<Byte>>, ap: Option<seq<Byte>>)
      returns (reboots: bool)
      modifies store
      ensures reboots == Valid(newMode, ssid, pass, ap)
      ensures store.nvs == After(old(store.nvs), SaveSettings(newMode, ssid, pass, ap))
    {
      if newMode == 1 {
        var ok := CheckSsid(ssid);
        if !ok { return false; }
        ok := CheckPassword(pass);
        if !ok { return false; }
      } else if newMode == 2 {
        var ok := CheckPassword(ap);
        if !ok { return false; }
      } else {
        return false;
      }
      store.SaveSettings(newMode, ssid, pass, ap);
      return true;
    }

    method FactoryResetAndReboot()
      modifies store
      ensures store.nvs == After(old(store.nvs), FactoryReset)
    {
      store.EraseAll();
      store.SetStaFailCount(0);
    }
  }
}
