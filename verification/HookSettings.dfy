/** What the configuration handed to the reload hook holds, told from the pins and the rows alone. */
module HookSettings {
  import opened Fingerprints
  import opened EnvSync

  /** Row i is the last enabled row with this name. */
  ghost predicate LastEnabled(rows: seq<Row>, i: nat, name: string) {
    && i < |rows| && !rows[i].isDisabled && NormalizeName(rows[i].name) == name
    && forall j :: i < j < |rows| ==> rows[j].isDisabled || NormalizeName(rows[j].name) != name
  }

  /** A setting is its pin, or the value of the last enabled row with its name, or empty. */
  ghost predicate SettingIs(pins: Pins, rows: seq<Row>, name: string, setting: string) {
    && (name in pins ==> setting == pins[name])
    && (name !in pins ==>
          && (forall i: nat :: LastEnabled(rows, i, name) ==> setting == rows[i].value)
          && ((forall r :: r in rows ==> r.isDisabled || NormalizeName(r.name) != name) ==> setting == ""))
  }

  lemma {:induction false} LastEnabledIsDesired(pins: Pins, rows: seq<Row>, i: nat, name: string)
    requires name != "" && NormalizeName(name) == name && name !in pins && LastEnabled(rows, i, name)
    ensures name in Desired(pins, rows) && Desired(pins, rows)[name] == rows[i].value
  {
    var k := |rows| - 1;
    if i < k {
      assert LastEnabled(rows[..k], i, name);
      LastEnabledIsDesired(pins, rows[..k], i, name);
    }
  }

  predicate Capitals(s: string) {
    forall c :: c in s ==> 'A' <= c <= 'Z' || c == '_'
  }

  lemma OneSetting(pins: Pins, rows: seq<Row>, name: string)
    requires name != "" && Capitals(name)
    ensures SettingIs(pins, rows, name, Choose(pins, name, Choose(Desired(pins, rows), name, "")))
  {
    assert name[0] in name && name[|name| - 1] in name;
    NormalForm(name);
    if name !in pins {
      forall i: nat | LastEnabled(rows, i, name)
        ensures name in Desired(pins, rows) && Desired(pins, rows)[name] == rows[i].value
      {
        LastEnabledIsDesired(pins, rows, i, name);
      }
      DesiredMeans(pins, rows, name);
    }
  }

  /** What the hook receives, setting by setting: pins before rows, later rows before earlier ones. */
  lemma HookReceives(pins: Pins, rows: seq<Row>)
    ensures var cfg := HookConfig(pins, rows);
            && SettingIs(pins, rows, "PORT", cfg.port) && SettingIs(pins, rows, "ADDRESS", cfg.address)
            && SettingIs(pins, rows, "AUTH_URL", cfg.authURL) && SettingIs(pins, rows, "JWT_SECRET", cfg.jwtSecret)
            && SettingIs(pins, rows, "ENABLE_HTTPS", cfg.enableHTTPS)
            && SettingIs(pins, rows, "SERVER_SSL_CERTIFICATE", cfg.sslCertificate)
            && SettingIs(pins, rows, "SERVER_SSL_KEY", cfg.sslKey)
  {
    AddressSettings(pins, rows);
    TokenSettings(pins, rows);
    CertificateSettings(pins, rows);
  }

  lemma AddressSettings(pins: Pins, rows: seq<Row>)
    ensures SettingIs(pins, rows, "PORT", HookConfig(pins, rows).port)
    ensures SettingIs(pins, rows, "ADDRESS", HookConfig(pins, rows).address)
  {
    assert Capitals("PORT") && Capitals("ADDRESS");
    OneSetting(pins, rows, "PORT");
    OneSetting(pins, rows, "ADDRESS");
  }

  lemma TokenSettings(pins: Pins, rows: seq<Row>)
    ensures SettingIs(pins, rows, "AUTH_URL", HookConfig(pins, rows).authURL)
    ensures SettingIs(pins, rows, "JWT_SECRET", HookConfig(pins, rows).jwtSecret)
  {
    assert Capitals("AUTH_URL") && Capitals("JWT_SECRET");
    OneSetting(pins, rows, "AUTH_URL");
    OneSetting(pins, rows, "JWT_SECRET");
  }

  lemma CertificateSettings(pins: Pins, rows: seq<Row>)
    ensures SettingIs(pins, rows, "ENABLE_HTTPS", HookConfig(pins, rows).enableHTTPS)
    ensures SettingIs(pins, rows, "SERVER_SSL_CERTIFICATE", HookConfig(pins, rows).sslCertificate)
    ensures SettingIs(pins, rows, "SERVER_SSL_KEY", HookConfig(pins, rows).sslKey)
  {
    CertificateNames();
    OneSetting(pins, rows, "ENABLE_HTTPS");
    OneSetting(pins, rows, "SERVER_SSL_CERTIFICATE");
    OneSetting(pins, rows, "SERVER_SSL_KEY");
  }

  lemma CertificateNames()
    ensures Capitals("ENABLE_HTTPS") && Capitals("SERVER_SSL_CERTIFICATE") && Capitals("SERVER_SSL_KEY")
  {
  }
}
