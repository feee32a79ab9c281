/** What one sync does to the process environment, and what any history of syncs leaves there. */
module EnvSync {
  import opened Text
  import opened Options
  import opened Fingerprints

  /** Upper-cased and trimmed, with dashes and blanks turned into underscores. */
  function NormalizeName(raw: string): string {
    Replace(Replace(Upper(Trim(raw)), '-', '_'), ' ', '_')
  }

  lemma NormalForm(n: string)
    requires Trimmed(n)
    requires forall c :: c in n ==> UpperChar(c) == c && c != '-' && c != ' '
    ensures NormalizeName(n) == n
  {
    TrimFixed(n);
    UpperAt(n);
    assert Upper(n) == n;
    ReplaceAt(n, '-', '_');
    assert Replace(n, '-', '_') == n;
    ReplaceAt(n, ' ', '_');
    assert Replace(n, ' ', '_') == n;
  }

  /** The code normalizes names again at every pin lookup; once is enough. */
  lemma NormalizeIdempotent(raw: string)
    ensures NormalizeName(NormalizeName(raw)) == NormalizeName(raw)
  {
    var t := Trim(raw);
    var u := Upper(t);
    var d := Replace(u, '-', '_');
    var n := Replace(d, ' ', '_');
    assert Trimmed(t) by { TrimTrims(raw); }
    assert |n| == |t| && forall i :: 0 <= i < |t| ==> n[i] == NameChar(t[i]) by {
      UpperAt(t);
      ReplaceAt(u, '-', '_');
      ReplaceAt(d, ' ', '_');
    }
    NormalForm(n);
  }

  /** A normalized name is the trimmed one in capitals, with an underscore for every dash and blank. */
  lemma NormalizeNameMeans(raw: string)
    ensures var t, n := Trim(raw), NormalizeName(raw);
            |n| == |t| && forall i :: 0 <= i < |t| ==> n[i] == if t[i] in "- " then '_' else UpperChar(t[i])
  {
    var u := Upper(Trim(raw));
    UpperAt(Trim(raw));
    ReplaceAt(u, '-', '_');
    ReplaceAt(Replace(u, '-', '_'), ' ', '_');
  }

  function NameChar(c: char): char {
    ReplaceChar(ReplaceChar(UpperChar(c), '-', '_'), ' ', '_')
  }

  /** The core settings handed to the reload hook. */
  datatype ServerConfig = ServerConfig(
    port: string, address: string, authURL: string, jwtSecret: string,
    enableHTTPS: string, sslCertificate: string, sslKey: string)

  const EMPTY_CONFIG := ServerConfig("", "", "", "", "", "", "")

  predicate IsCoreName(name: string) {
    var n := NormalizeName(name);
    n == "PORT" || n == "ADDRESS" || n == "AUTH_URL" || n == "JWT_SECRET" || n == "ENABLE_HTTPS"
    || n == "SERVER_SSL_CERTIFICATE" || n == "SERVER_SSL_KEY"
  }

  function ApplyCoreValue(cfg: ServerConfig, name: string, value: string): ServerConfig {
    var n := NormalizeName(name);
    if n == "PORT" then cfg.(port := value)
    else if n == "ADDRESS" then cfg.(address := value)
    else if n == "AUTH_URL" then cfg.(authURL := value)
    else if n == "JWT_SECRET" then cfg.(jwtSecret := value)
    else if n == "ENABLE_HTTPS" then cfg.(enableHTTPS := value)
    else if n == "SERVER_SSL_CERTIFICATE" then cfg.(sslCertificate := value)
    else if n == "SERVER_SSL_KEY" then cfg.(sslKey := value)
    else cfg
  }

  function Choose(m: map<string, string>, name: string, default: string): string {
    if name in m then m[name] else default
  }

  /** The configuration with every core name of `m` replaced by its value there. */
  function Overlay(cfg: ServerConfig, m: map<string, string>): ServerConfig {
    ServerConfig(
      Choose(m, "PORT", cfg.port), Choose(m, "ADDRESS", cfg.address),
      Choose(m, "AUTH_URL", cfg.authURL), Choose(m, "JWT_SECRET", cfg.jwtSecret),
      Choose(m, "ENABLE_HTTPS", cfg.enableHTTPS),
      Choose(m, "SERVER_SSL_CERTIFICATE", cfg.sslCertificate),
      Choose(m, "SERVER_SSL_KEY", cfg.sslKey))
  }

  lemma OverlayExtends(cfg: ServerConfig, m: map<string, string>, name: string, value: string)
    requires NormalizeName(name) == name
    ensures Overlay(cfg, m[name := value]) == ApplyCoreValue(Overlay(cfg, m), name, value)
  {
    ChooseUpdate(m, name, value, "PORT", cfg.port);
    ChooseUpdate(m, name, value, "ADDRESS", cfg.address);
    ChooseUpdate(m, name, value, "AUTH_URL", cfg.authURL);
    ChooseUpdate(m, name, value, "JWT_SECRET", cfg.jwtSecret);
    ChooseUpdate(m, name, value, "ENABLE_HTTPS", cfg.enableHTTPS);
    ChooseUpdate(m, name, value, "SERVER_SSL_CERTIFICATE", cfg.sslCertificate);
    ChooseUpdate(m, name, value, "SERVER_SSL_KEY", cfg.sslKey);
  }

  lemma ChooseUpdate(m: map<string, string>, name: string, value: string, key: string, d: string)
    ensures Choose(m[name := value], key, d) == if key == name then value else Choose(m, key, d)
  {
  }

  // ------------------------------------------------------------------ the process environment

  type Environ = map<string, string>

  /** Setting a variable fails, and the failure is ignored, for these names and values. */
  predicate Settable(name: string, value: string) {
    name != "" && '=' !in name && NUL !in name && NUL !in value
  }

  function Setenv(env: Environ, name: string, value: string): Environ {
    if Settable(name, value) then env[name := value] else env
  }

  function Unsetenv(env: Environ, name: string): Environ {
    env - {name}
  }

  /** The system refuses an empty name, an equals sign in a name, and a NUL in either; anything else is set,
      and nothing but the variable named changes. */
  lemma SetenvMeans(env: Environ, name: string, value: string, other: string)
    ensures Lookup(Setenv(env, name, value), name) ==
            if name == "" || '=' in name || '\0' in name || '\0' in value then Lookup(env, name) else Some(value)
    ensures other != name ==> Lookup(Setenv(env, name, value), other) == Lookup(env, other)
    ensures Lookup(Unsetenv(env, name), name) == None
    ensures other != name ==> Lookup(Unsetenv(env, name), other) == Lookup(env, other)
  {
  }

  // -------------------------------------------------------------------------------- one sync

  type Pins = map<string, string>

  /** Pins are kept under their normalized names. */
  ghost predicate ValidPins(pins: Pins) {
    forall n :: n in pins ==> NormalizeName(n) == n && n != "" && pins[n] != ""
  }

  predicate Pinned(pins: Pins, name: string) {
    NormalizeName(name) in pins
  }

  /** A row the sync does not pass over. */
  predicate Counts(pins: Pins, row: Row) {
    NormalizeName(row.name) != "" && !Pinned(pins, NormalizeName(row.name))
  }

  predicate Enables(pins: Pins, row: Row, name: string) {
    Counts(pins, row) && !row.isDisabled && NormalizeName(row.name) == name
  }

  predicate Disables(pins: Pins, row: Row, name: string) {
    Counts(pins, row) && row.isDisabled && NormalizeName(row.name) == name
  }

  /** The values the rows ask for; a later row wins over an earlier one. */
  function Desired(pins: Pins, rows: seq<Row>): map<string, string> {
    if rows == [] then map[]
    else
      var last := rows[|rows| - 1];
      var before := Desired(pins, rows[..|rows| - 1]);
      if Counts(pins, last) && !last.isDisabled
      then before[NormalizeName(last.name) := last.value] else before
  }

  function Disabled(pins: Pins, rows: seq<Row>): set<string> {
    if rows == [] then {}
    else
      var last := rows[|rows| - 1];
      var before := Disabled(pins, rows[..|rows| - 1]);
      if Counts(pins, last) && last.isDisabled then before + {NormalizeName(last.name)} else before
  }

  lemma {:induction false} DesiredMeans(pins: Pins, rows: seq<Row>, name: string)
    ensures name in Desired(pins, rows) <==> exists r :: r in rows && Enables(pins, r, name)
    ensures name in Desired(pins, rows) ==>
              exists i :: && 0 <= i < |rows| && Enables(pins, rows[i], name)
                          && rows[i].value == Desired(pins, rows)[name]
                          && forall j :: i < j < |rows| ==> !Enables(pins, rows[j], name)
  {
    if rows != [] {
      var k := |rows| - 1;
      DesiredMeans(pins, rows[..k], name);
      assert rows == rows[..k] + [rows[k]];
      if Enables(pins, rows[k], name) {
      } else if name in Desired(pins, rows) {
        var i :| && 0 <= i < k && Enables(pins, rows[..k][i], name)
                 && rows[..k][i].value == Desired(pins, rows[..k])[name]
                 && forall j :: i < j < k ==> !Enables(pins, rows[..k][j], name);
        assert Enables(pins, rows[i], name) && rows[i].value == Desired(pins, rows)[name];
        forall j | i < j < |rows|
          ensures !Enables(pins, rows[j], name)
        {
          assert j < k ==> rows[..k][j] == rows[j];
        }
      }
    }
  }

  lemma {:induction false} DisabledMeans(pins: Pins, rows: seq<Row>, name: string)
    ensures name in Disabled(pins, rows) <==> exists r :: r in rows && Disables(pins, r, name)
  {
    if rows != [] {
      var k := |rows| - 1;
      DisabledMeans(pins, rows[..k], name);
      assert rows == rows[..k] + [rows[k]];
      if name in Disabled(pins, rows[..k]) {
        var r :| r in rows[..k] && Disables(pins, r, name);
        assert r in rows;
      } else if Disables(pins, rows[k], name) {
        assert rows[k] in rows;
      }
    }
  }

  /** Only the hashed columns of the rows matter to a sync. */
  lemma {:induction false} SyncReadsEntries(pins: Pins, a: seq<Row>, b: seq<Row>)
    requires Entries(a) == Entries(b)
    ensures Desired(pins, a) == Desired(pins, b) && Disabled(pins, a) == Disabled(pins, b)
  {
    assert |a| == |b|;
    if a != [] {
      var k := |a| - 1;
      assert Entries(a)[k] == Entries(b)[k];
      assert Entries(a[..k]) == Entries(a)[..k] == Entries(b)[..k] == Entries(b[..k]);
      SyncReadsEntries(pins, a[..k], b[..k]);
    }
  }

  /** The value of one variable after a sync: sets, then unsets, then pins. */
  function After(pins: Pins, env: Environ, managed: set<string>, rows: seq<Row>, n: string): Option<string> {
    var desired, disabled := Desired(pins, rows), Disabled(pins, rows);
    if n in pins && Settable(n, pins[n]) then Some(pins[n])
    else if n in disabled || (n in managed && n !in desired && !Pinned(pins, n)) then None
    else if n in desired && Settable(n, desired[n]) then Some(desired[n])
    else Lookup(env, n)
  }

  function SyncedEnviron(pins: Pins, env: Environ, managed: set<string>, rows: seq<Row>): (r: Environ)
    ensures forall n :: Lookup(r, n) == After(pins, env, managed, rows, n)
  {
    map n | n in env.Keys + Desired(pins, rows).Keys + pins.Keys
            && After(pins, env, managed, rows, n).Some?
          :: After(pins, env, managed, rows, n).value
  }

  /** The configuration the hook receives: row values first, pins over them. */
  function HookConfig(pins: Pins, rows: seq<Row>): ServerConfig {
    Overlay(Overlay(EMPTY_CONFIG, Desired(pins, rows)), pins)
  }

  /** The part of the manager a sync changes under its lock, together with the process environment. */
  datatype Synced = Synced(env: Environ, managed: set<string>, fingerprint: string)

  function Apply(hash: Hash, pins: Pins, st: Synced, rows: seq<Row>): Synced {
    Synced(SyncedEnviron(pins, st.env, st.managed, rows), Desired(pins, rows).Keys,
           Fingerprint(hash, rows))
  }

  /** The state already is what syncing these rows produces. */
  ghost predicate Reflects(hash: Hash, pins: Pins, st: Synced, rows: seq<Row>) {
    Apply(hash, pins, st, rows) == st
  }

  lemma ReflectedFingerprint(hash: Hash, pins: Pins, st: Synced, rows: seq<Row>)
    requires Reflects(hash, pins, st, rows)
    ensures st.fingerprint == Fingerprint(hash, rows)
  {
  }

  /** Syncing the same rows again changes nothing: not the environment, not the managed keys, not the
      fingerprint. */
  lemma ApplyReflects(hash: Hash, pins: Pins, st: Synced, rows: seq<Row>)
    ensures Reflects(hash, pins, Apply(hash, pins, st, rows), rows)
  {
    var one := Apply(hash, pins, st, rows);
    var two := Apply(hash, pins, one, rows);
    forall n
      ensures Lookup(two.env, n) == Lookup(one.env, n)
    {
      assert Lookup(two.env, n) == After(pins, one.env, one.managed, rows, n);
      assert Lookup(one.env, n) == After(pins, st.env, st.managed, rows, n);
    }
    SameLookups(two.env, one.env);
  }

  /** Skipping a load whose fingerprint equals the recorded one is the same as re-applying it, and the
      hook would be given the configuration it was given for the rows applied. */
  lemma SkipRefinesReapply(hash: Hash, pins: Pins, st: Synced, applied: seq<Row>, rows: seq<Row>)
    requires Injective(hash) && Loaded(applied) && Loaded(rows)
    requires Reflects(hash, pins, st, applied) && Fingerprint(hash, rows) == st.fingerprint
    ensures Reflects(hash, pins, st, rows) && HookConfig(pins, rows) == HookConfig(pins, applied)
  {
    FingerprintDeterminesLoaded(hash, applied, rows);
    SyncReadsEntries(pins, applied, rows);
    forall n
      ensures Lookup(Apply(hash, pins, st, rows).env, n) == Lookup(st.env, n)
    {
      assert Lookup(Apply(hash, pins, st, applied).env, n) == After(pins, st.env, st.managed, applied, n);
      assert Lookup(Apply(hash, pins, st, rows).env, n) == After(pins, st.env, st.managed, rows, n);
    }
    SameLookups(Apply(hash, pins, st, rows).env, st.env);
  }

  /** What an environment that reflects some rows looks like, variable by variable. */
  lemma ReflectsShows(hash: Hash, pins: Pins, st: Synced, rows: seq<Row>, n: string)
    requires Reflects(hash, pins, st, rows) && n !in pins
    ensures TurnsOn(pins, rows, n) ==> n in Desired(pins, rows)
    ensures TurnsOn(pins, rows, n) && Settable(n, Desired(pins, rows)[n]) ==>
              n in st.env && st.env[n] == Desired(pins, rows)[n]
    ensures (exists r :: r in rows && Disables(pins, r, n)) ==> n !in st.env
    ensures n in st.managed <==> exists r :: r in rows && Enables(pins, r, n)
  {
    DesiredMeans(pins, rows, n);
    DisabledMeans(pins, rows, n);
    assert Lookup(Apply(hash, pins, st, rows).env, n) == After(pins, st.env, st.managed, rows, n);
  }

  // ------------------------------------------------------------------------- whole histories

  type History = seq<seq<Row>>

  function ApplyAll(hash: Hash, pins: Pins, boot: Synced, h: History): Synced {
    if h == [] then boot
    else Apply(hash, pins, ApplyAll(hash, pins, boot, h[..|h| - 1]), h[|h| - 1])
  }

  ghost predicate Mentions(pins: Pins, rows: seq<Row>, n: string) {
    exists r :: r in rows && Counts(pins, r) && NormalizeName(r.name) == n
  }

  ghost predicate EverMentioned(pins: Pins, h: History, n: string) {
    exists i :: 0 <= i < |h| && Mentions(pins, h[i], n)
  }

  /** The rows ask for the variable: some row enables it and none disables it. */
  ghost predicate TurnsOn(pins: Pins, rows: seq<Row>, n: string) {
    && (exists r :: r in rows && Enables(pins, r, n))
    && (forall r :: r in rows ==> !Disables(pins, r, n))
  }

  lemma MentionsMeans(pins: Pins, rows: seq<Row>, n: string)
    ensures Mentions(pins, rows, n) <==> n in Desired(pins, rows) || n in Disabled(pins, rows)
  {
    DesiredMeans(pins, rows, n);
    DisabledMeans(pins, rows, n);
    if Mentions(pins, rows, n) {
      var r :| r in rows && Counts(pins, r) && NormalizeName(r.name) == n;
      assert Enables(pins, r, n) || Disables(pins, r, n);
    }
  }

  lemma MentionedSplits(pins: Pins, h: History, n: string)
    requires h != []
    ensures EverMentioned(pins, h, n) <==>
            EverMentioned(pins, h[..|h| - 1], n) || Mentions(pins, h[|h| - 1], n)
  {
    var k := |h| - 1;
    if EverMentioned(pins, h[..k], n) {
      var i :| 0 <= i < k && Mentions(pins, h[..k][i], n);
      assert Mentions(pins, h[i], n);
    }
    if EverMentioned(pins, h, n) && !Mentions(pins, h[k], n) {
      var i :| 0 <= i < |h| && Mentions(pins, h[i], n);
      assert h[..k][i] == h[i];
    }
  }

  /** A pin the system accepts holds after every sync, whatever the rows say. */
  lemma PinsHold(hash: Hash, pins: Pins, boot: Synced, h: History, n: string)
    requires h != [] && n in pins && Settable(n, pins[n])
    ensures Lookup(ApplyAll(hash, pins, boot, h).env, n) == Some(pins[n])
  {
  }

  /** A name no row ever mentioned keeps the value it had at boot. */
  lemma {:induction false} UnmentionedKeepsBoot(hash: Hash, pins: Pins, boot: Synced, h: History, n: string)
    requires boot.managed == {} && n !in pins && !EverMentioned(pins, h, n)
    ensures Lookup(ApplyAll(hash, pins, boot, h).env, n) == Lookup(boot.env, n)
    ensures n !in ApplyAll(hash, pins, boot, h).managed
  {
    if h != [] {
      MentionedSplits(pins, h, n);
      UnmentionedKeepsBoot(hash, pins, boot, h[..|h| - 1], n);
      MentionsMeans(pins, h[|h| - 1], n);
    }
  }

  /** Every name still managed is one the last rows ask for. */
  lemma ManagedAreWanted(hash: Hash, pins: Pins, boot: Synced, h: History)
    requires h != []
    ensures ApplyAll(hash, pins, boot, h).managed == Desired(pins, h[|h| - 1]).Keys
  {
  }

  /** A name the last rows do not ask for is unset if they switch it off or it was managed before. */
  lemma UnwantedIsUnset(hash: Hash, pins: Pins, st: Synced, rows: seq<Row>, n: string)
    requires n !in pins && !Pinned(pins, n) && n !in Desired(pins, rows)
    requires n in Disabled(pins, rows) || n in st.managed || n !in st.env
    ensures n !in Apply(hash, pins, st, rows).env
  {
    assert Lookup(Apply(hash, pins, st, rows).env, n) == After(pins, st.env, st.managed, rows, n);
  }

  /** A mentioned name that the last rows do not ask for is unset. */
  lemma {:induction false} MentionedIsManagedOrUnset(hash: Hash, pins: Pins, boot: Synced, h: History, n: string)
    requires boot.managed == {} && ValidPins(pins) && !Pinned(pins, n) && EverMentioned(pins, h, n)
    ensures h != [] && (n in ApplyAll(hash, pins, boot, h).managed <==> n in Desired(pins, h[|h| - 1]))
    ensures n !in Desired(pins, h[|h| - 1]) ==> n !in ApplyAll(hash, pins, boot, h).env
  {
    var k := |h| - 1;
    ManagedAreWanted(hash, pins, boot, h);
    MentionedSplits(pins, h, n);
    MentionsMeans(pins, h[k], n);
    if EverMentioned(pins, h[..k], n) {
      MentionedIsManagedOrUnset(hash, pins, boot, h[..k], n);
      ManagedAreWanted(hash, pins, boot, h[..k]);
    }
    MentionedKeyIsNormal(pins, h, n);
    if n !in Desired(pins, h[k]) {
      UnwantedIsUnset(hash, pins, ApplyAll(hash, pins, boot, h[..k]), h[k], n);
    }
  }

  lemma MentionedKeyIsNormal(pins: Pins, h: History, n: string)
    requires EverMentioned(pins, h, n)
    ensures NormalizeName(n) == n && n != ""
  {
    var i :| 0 <= i < |h| && Mentions(pins, h[i], n);
    var r :| r in h[i] && Counts(pins, r) && NormalizeName(r.name) == n;
    NormalizeIdempotent(r.name);
  }

  /** After any history, a name some rows mentioned is set exactly if the last rows turn it on, to
      the value they give it, as long as the operating system accepts that value; if it does not,
      the variable is left as the rows before had it. */
  lemma WholeHistory(hash: Hash, pins: Pins, boot: Synced, h: History, n: string)
    requires boot.managed == {} && ValidPins(pins) && !Pinned(pins, n) && EverMentioned(pins, h, n)
    ensures var last := h[|h| - 1];
            var env := ApplyAll(hash, pins, boot, h).env;
            && (TurnsOn(pins, last, n) <==> n in Desired(pins, last) && n !in Disabled(pins, last))
            && (!TurnsOn(pins, last, n) ==> n !in env)
            && (TurnsOn(pins, last, n) && Settable(n, Desired(pins, last)[n]) ==>
                  n in env && env[n] == Desired(pins, last)[n])
            && (TurnsOn(pins, last, n) && !Settable(n, Desired(pins, last)[n]) ==>
                  Lookup(env, n) == Lookup(ApplyAll(hash, pins, boot, h[..|h| - 1]).env, n))
  {
    var k := |h| - 1;
    var before := ApplyAll(hash, pins, boot, h[..k]);
    MentionedIsManagedOrUnset(hash, pins, boot, h, n);
    MentionedKeyIsNormal(pins, h, n);
    DesiredMeans(pins, h[k], n);
    DisabledMeans(pins, h[k], n);
    assert Lookup(ApplyAll(hash, pins, boot, h).env, n) == After(pins, before.env, before.managed, h[k], n);
  }

  lemma OneEnabledRow(pins: Pins, r: Row)
    requires Counts(pins, r) && !r.isDisabled
    ensures Desired(pins, [r]) == map[NormalizeName(r.name) := r.value] && Disabled(pins, [r]) == {}
    ensures TurnsOn(pins, [r], NormalizeName(r.name))
  {
    assert [r][..0] == [];
    assert Enables(pins, r, NormalizeName(r.name)) && r in [r];
  }

  /** The failing case is real: a value the system refuses leaves the older value in place. */
  lemma RefusedValueIsStale(hash: Hash, boot: Synced, good: string, bad: string)
    requires boot.managed == {} && Settable("A", good) && !Settable("A", bad)
    ensures var h := [[Row("A", good, false, false)], [Row("A", bad, false, false)]];
            && TurnsOn(map[], h[1], "A")
            && Lookup(ApplyAll(hash, map[], boot, h).env, "A") == Some(good)
  {
    var r0, r1 := Row("A", good, false, false), Row("A", bad, false, false);
    NormalForm("A");
    OneEnabledRow(map[], r0);
    OneEnabledRow(map[], r1);
    var s0 := Apply(hash, map[], boot, [r0]);
    var s1 := Apply(hash, map[], s0, [r1]);
    assert Lookup(s0.env, "A") == After(map[], boot.env, boot.managed, [r0], "A") == Some(good);
    assert Lookup(s1.env, "A") == After(map[], s0.env, s0.managed, [r1], "A") == Lookup(s0.env, "A");
    ApplyTwo(hash, boot, [r0], [r1]);
  }

  lemma ApplyTwo(hash: Hash, boot: Synced, a: seq<Row>, b: seq<Row>)
    ensures ApplyAll(hash, map[], boot, [a, b]) == Apply(hash, map[], Apply(hash, map[], boot, a), b)
  {
    assert [a, b][..1] == [a] && [a][..0] == [];
    assert ApplyAll(hash, map[], boot, []) == boot;
    assert ApplyAll(hash, map[], boot, [a]) == Apply(hash, map[], boot, a);
  }
}
