/** `GET` and `PUT /api/settings`: the site settings read with per-key defaults, and
    written field by field. */
module SettingsRoute {
  import opened Basics
  import Text
  import Decimal
  import Catalog
  import Auth

  const ICON_KEY: string := "admin_icon"
  const ADMIN_THEME_KEY: string := "admin_theme_color"
  const VISITOR_THEME_KEY: string := "visitor_theme_color"

  const DEFAULT_ADMIN_THEME: string := "#22c55e"
  const DEFAULT_VISITOR_THEME: string := "#3b82f6"

  /** The keys a PUT may write. */
  const SETTINGS_KEYS: set<string> := {Catalog.MAX_STORAGE_KEY, Auth.USERNAME_KEY, Auth.PASSWORD_HASH_KEY,
                                       ICON_KEY, ADMIN_THEME_KEY, VISITOR_THEME_KEY}

  /** The six keys are pairwise different. */
  lemma KeysDistinct()
    ensures |SETTINGS_KEYS| == 6
    ensures Catalog.MAX_STORAGE_KEY != Auth.USERNAME_KEY && Catalog.MAX_STORAGE_KEY != Auth.PASSWORD_HASH_KEY
    ensures Catalog.MAX_STORAGE_KEY != ICON_KEY && Catalog.MAX_STORAGE_KEY != ADMIN_THEME_KEY
    ensures Catalog.MAX_STORAGE_KEY != VISITOR_THEME_KEY
    ensures Auth.USERNAME_KEY != Auth.PASSWORD_HASH_KEY && Auth.USERNAME_KEY != ICON_KEY
    ensures Auth.USERNAME_KEY != ADMIN_THEME_KEY && Auth.USERNAME_KEY != VISITOR_THEME_KEY
    ensures Auth.PASSWORD_HASH_KEY != ICON_KEY && Auth.PASSWORD_HASH_KEY != ADMIN_THEME_KEY
    ensures Auth.PASSWORD_HASH_KEY != VISITOR_THEME_KEY
    ensures ICON_KEY != ADMIN_THEME_KEY && ICON_KEY != VISITOR_THEME_KEY
    ensures ADMIN_THEME_KEY != VISITOR_THEME_KEY
  {
    assert Catalog.MAX_STORAGE_KEY[0] == 'm' && ADMIN_THEME_KEY[0] == 'a';
    assert Auth.PASSWORD_HASH_KEY[0] == 'a' && VISITOR_THEME_KEY[0] == 'v';
    assert Auth.USERNAME_KEY[6] == 'u' && Auth.PASSWORD_HASH_KEY[6] == 'p';
    assert ICON_KEY[6] == 'i' && ADMIN_THEME_KEY[6] == 't';
  }

  /** The GET payload. `maxStorageBytes` is `parseInt` of the stored text; `None` is NaN. */
  datatype SettingsView = SettingsView(
    maxStorageBytes: Option<int>,
    adminName: string,
    adminIcon: string,
    adminThemeColor: string,
    visitorThemeColor: string)

  /** `GET`: each stored value, or its default when absent or empty. */
  function GetSettings(settings: map<string, string>): (v: SettingsView)
    ensures v.maxStorageBytes == Decimal.ParseInt(Catalog.SettingOr(settings, Catalog.MAX_STORAGE_KEY, Catalog.DEFAULT_MAX_STORAGE))
    ensures v.adminName == Catalog.SettingOr(settings, Auth.USERNAME_KEY, Auth.DEFAULT_USERNAME)
    ensures v.adminIcon == Catalog.SettingOr(settings, ICON_KEY, "")
    ensures v.adminThemeColor == Catalog.SettingOr(settings, ADMIN_THEME_KEY, DEFAULT_ADMIN_THEME)
    ensures v.visitorThemeColor == Catalog.SettingOr(settings, VISITOR_THEME_KEY, DEFAULT_VISITOR_THEME)
  {
    SettingsView(
      Decimal.ParseInt(Catalog.SettingOr(settings, Catalog.MAX_STORAGE_KEY, Catalog.DEFAULT_MAX_STORAGE)),
      Catalog.SettingOr(settings, Auth.USERNAME_KEY, Auth.DEFAULT_USERNAME),
      Catalog.SettingOr(settings, ICON_KEY, ""),
      Catalog.SettingOr(settings, ADMIN_THEME_KEY, DEFAULT_ADMIN_THEME),
      Catalog.SettingOr(settings, VISITOR_THEME_KEY, DEFAULT_VISITOR_THEME))
  }

  /** `String(1099511627776)`, one digit at a time. */
  lemma DefaultQuotaText()
    ensures Decimal.IntToString(1099511627776) == Catalog.DEFAULT_MAX_STORAGE
  {
    assert Decimal.NatToString(1) == "1";
    assert Decimal.NatToString(10) == "10";
    assert Decimal.NatToString(109) == "109";
    assert Decimal.NatToString(1099) == "1099";
    assert Decimal.NatToString(10995) == "10995";
    assert Decimal.NatToString(109951) == "109951";
    assert Decimal.NatToString(1099511) == "1099511";
    assert Decimal.NatToString(10995116) == "10995116";
    assert Decimal.NatToString(109951162) == "109951162";
    assert Decimal.NatToString(1099511627) == "1099511627";
    assert Decimal.NatToString(10995116277) == "10995116277";
    assert Decimal.NatToString(109951162777) == "109951162777";
  }

  /** The default quota text reads as 1 TiB. */
  lemma QuotaDefault()
    ensures Decimal.ParseInt(Catalog.DEFAULT_MAX_STORAGE) == Some(1099511627776)
  {
    DefaultQuotaText();
    Decimal.ParseIntRoundTrip(1099511627776);
  }

  /** On a store holding nothing but the default quota, GET shows every default, with the
      quota read back as 1 TiB. */
  lemma GetDefaults()
    ensures GetSettings(map[Catalog.MAX_STORAGE_KEY := Catalog.DEFAULT_MAX_STORAGE])
            == SettingsView(Some(1099511627776), "razael", "", "#22c55e", "#3b82f6")
  {
    var settings := map[Catalog.MAX_STORAGE_KEY := Catalog.DEFAULT_MAX_STORAGE];
    KeysDistinct();
    QuotaDefault();
  }

  /** The JSON value of `max_storage_bytes` when it is sent: an integer, or `null`. The
      settings page sends `null` when its GB field is blank: `parseInt` gives NaN there,
      and JSON writes NaN as `null`. */
  datatype Quota = Bytes(n: int) | Null

  /** `String(body.max_storage_bytes)`. */
  function QuotaText(q: Quota): (t: string)
    ensures q.Null? ==> t == "null"
    ensures q.Bytes? ==> Decimal.Canonical(t)
  {
    Decimal.IntToStringCanonical(if q.Bytes? then q.n else 0);
    match q
    case Bytes(n) => Decimal.IntToString(n)
    case Null => "null"
  }

  /** The PUT body; an absent field is `None`. */
  datatype SettingsBody = SettingsBody(
    maxStorageBytes: Option<Quota>,
    adminName: Option<string>,
    adminPassword: Option<string>,
    adminIcon: Option<string>,
    adminThemeColor: Option<string>,
    visitorThemeColor: Option<string>)

  /** A name or password field applies when present and not blank. */
  predicate Applies(field: Option<string>)
  {
    field.Some? && !Text.IsBlank(field.value)
  }

  /** The values a PUT writes, per key; `None` leaves the key alone. */
  datatype Writes = Writes(
    maxStorage: Option<string>,
    username: Option<string>,
    passwordHash: Option<string>,
    icon: Option<string>,
    adminTheme: Option<string>,
    visitorTheme: Option<string>)

  /** What each field of the body asks to write. */
  function WritesOf(hash: string -> string, body: SettingsBody): Writes
  {
    Writes(
      if body.maxStorageBytes.Some? then Some(QuotaText(body.maxStorageBytes.value)) else None,
      if Applies(body.adminName) then Some(Text.Trim(body.adminName.value)) else None,
      if Applies(body.adminPassword) then Some(hash(Text.Trim(body.adminPassword.value))) else None,
      body.adminIcon,
      body.adminThemeColor,
      body.visitorThemeColor)
  }

  /** `INSERT OR REPLACE` of `value` under `key` when there is one. */
  function PutIf(settings: map<string, string>, key: string, value: Option<string>): map<string, string>
  {
    if value.Some? then settings[key := value.value] else settings
  }

  /** The writes, in the handler's order. */
  function ApplyWrites(settings: map<string, string>, w: Writes): map<string, string>
  {
    var s1 := PutIf(settings, Catalog.MAX_STORAGE_KEY, w.maxStorage);
    var s2 := PutIf(s1, Auth.USERNAME_KEY, w.username);
    var s3 := PutIf(s2, Auth.PASSWORD_HASH_KEY, w.passwordHash);
    var s4 := PutIf(s3, ICON_KEY, w.icon);
    var s5 := PutIf(s4, ADMIN_THEME_KEY, w.adminTheme);
    PutIf(s5, VISITOR_THEME_KEY, w.visitorTheme)
  }

  /** Reading a key after the writes: its written value, if any, else what was there. */
  function ReadAfter(settings: map<string, string>, key: string, value: Option<string>): Option<string>
  {
    if value.Some? then value else Catalog.GetSetting(settings, key)
  }

  /** The quota, name and password-hash keys each end up holding their own write, or what
      they held before. */
  lemma ApplyWritesAccount(settings: map<string, string>, w: Writes)
    ensures var r := ApplyWrites(settings, w);
            && Catalog.GetSetting(r, Catalog.MAX_STORAGE_KEY) == ReadAfter(settings, Catalog.MAX_STORAGE_KEY, w.maxStorage)
            && Catalog.GetSetting(r, Auth.USERNAME_KEY) == ReadAfter(settings, Auth.USERNAME_KEY, w.username)
            && Catalog.GetSetting(r, Auth.PASSWORD_HASH_KEY) == ReadAfter(settings, Auth.PASSWORD_HASH_KEY, w.passwordHash)
  {
    KeysDistinct();
  }

  /** The icon and theme keys each end up holding their own write, or what they held before. */
  lemma ApplyWritesAppearance(settings: map<string, string>, w: Writes)
    ensures var r := ApplyWrites(settings, w);
            && Catalog.GetSetting(r, ICON_KEY) == ReadAfter(settings, ICON_KEY, w.icon)
            && Catalog.GetSetting(r, ADMIN_THEME_KEY) == ReadAfter(settings, ADMIN_THEME_KEY, w.adminTheme)
            && Catalog.GetSetting(r, VISITOR_THEME_KEY) == ReadAfter(settings, VISITOR_THEME_KEY, w.visitorTheme)
  {
    KeysDistinct();
  }

  /** The settings after a PUT: keys other than the six are never touched. */
  function ApplyPut(settings: map<string, string>, hash: string -> string, body: SettingsBody): (r: map<string, string>)
    ensures forall k :: k !in SETTINGS_KEYS ==> (k in r <==> k in settings)
    ensures forall k :: k !in SETTINGS_KEYS && k in settings ==> r[k] == settings[k]
  {
    ApplyWrites(settings, WritesOf(hash, body))
  }

  /** The quota is written as the text of the value given (`"null"` for `null`), or left
      alone. */
  lemma PutQuota(settings: map<string, string>, hash: string -> string, body: SettingsBody)
    ensures var r := ApplyPut(settings, hash, body);
            && (body.maxStorageBytes.Some? ==>
                  Catalog.GetSetting(r, Catalog.MAX_STORAGE_KEY) == Some(QuotaText(body.maxStorageBytes.value)))
            && (body.maxStorageBytes.None? ==>
                  Catalog.GetSetting(r, Catalog.MAX_STORAGE_KEY) == Catalog.GetSetting(settings, Catalog.MAX_STORAGE_KEY))
  {
    ApplyWritesAccount(settings, WritesOf(hash, body));
  }

  /** The name is stored trimmed and the password as the hash of the trimmed text, each only
      when it is not blank; otherwise the stored value stays. */
  lemma PutCredentials(settings: map<string, string>, hash: string -> string, body: SettingsBody)
    ensures var r := ApplyPut(settings, hash, body);
            && (Applies(body.adminName) ==>
                  Catalog.GetSetting(r, Auth.USERNAME_KEY) == Some(Text.Trim(body.adminName.value)))
            && (!Applies(body.adminName) ==>
                  Catalog.GetSetting(r, Auth.USERNAME_KEY) == Catalog.GetSetting(settings, Auth.USERNAME_KEY))
            && (Applies(body.adminPassword) ==>
                  Catalog.GetSetting(r, Auth.PASSWORD_HASH_KEY) == Some(hash(Text.Trim(body.adminPassword.value))))
            && (!Applies(body.adminPassword) ==>
                  Catalog.GetSetting(r, Auth.PASSWORD_HASH_KEY) == Catalog.GetSetting(settings, Auth.PASSWORD_HASH_KEY))
  {
    ApplyWritesAccount(settings, WritesOf(hash, body));
  }

  /** The icon and both theme colours are stored verbatim when present, the empty string
      included; absent ones stay. */
  lemma PutAppearance(settings: map<string, string>, hash: string -> string, body: SettingsBody)
    ensures var r := ApplyPut(settings, hash, body);
            && (body.adminIcon.Some? ==> Catalog.GetSetting(r, ICON_KEY) == body.adminIcon)
            && (body.adminIcon.None? ==> Catalog.GetSetting(r, ICON_KEY) == Catalog.GetSetting(settings, ICON_KEY))
            && (body.adminThemeColor.Some? ==> Catalog.GetSetting(r, ADMIN_THEME_KEY) == body.adminThemeColor)
            && (body.adminThemeColor.None? ==>
                  Catalog.GetSetting(r, ADMIN_THEME_KEY) == Catalog.GetSetting(settings, ADMIN_THEME_KEY))
            && (body.visitorThemeColor.Some? ==> Catalog.GetSetting(r, VISITOR_THEME_KEY) == body.visitorThemeColor)
            && (body.visitorThemeColor.None? ==>
                  Catalog.GetSetting(r, VISITOR_THEME_KEY) == Catalog.GetSetting(settings, VISITOR_THEME_KEY))
  {
    ApplyWritesAppearance(settings, WritesOf(hash, body));
  }

  /** `PUT`: the conditional writes, in the handler's order. */
  method PutSettings(db: Catalog.Database, hash: string -> string, body: SettingsBody)
    modifies db
    ensures db.settings == ApplyPut(old(db.settings), hash, body)
    ensures db.contents == old(db.contents)
  {
    if body.maxStorageBytes.Some? {
      db.SetSetting(Catalog.MAX_STORAGE_KEY, QuotaText(body.maxStorageBytes.value));
    }
    if body.adminName.Some? && !Text.IsBlank(body.adminName.value) {
      Auth.UpdateAdminUsername(db, Text.Trim(body.adminName.value));
    }
    if body.adminPassword.Some? && !Text.IsBlank(body.adminPassword.value) {
      Auth.UpdateAdminPassword(db, hash, Text.Trim(body.adminPassword.value));
    }
    if body.adminIcon.Some? {
      db.SetSetting(ICON_KEY, body.adminIcon.value);
    }
    if body.adminThemeColor.Some? {
      db.SetSetting(ADMIN_THEME_KEY, body.adminThemeColor.value);
    }
    if body.visitorThemeColor.Some? {
      db.SetSetting(VISITOR_THEME_KEY, body.visitorThemeColor.value);
    }
  }

  /** A quota written by PUT is read back by GET: a safe integer unchanged, and `null`
      as NaN, which the GET response writes as `null` again. */
  lemma QuotaRoundTrip(settings: map<string, string>, hash: string -> string, body: SettingsBody)
    requires body.maxStorageBytes.Some?
    requires body.maxStorageBytes.value.Bytes? ==> Decimal.SafeInteger(body.maxStorageBytes.value.n)
    ensures body.maxStorageBytes.value.Bytes? ==>
              GetSettings(ApplyPut(settings, hash, body)).maxStorageBytes == Some(body.maxStorageBytes.value.n)
    ensures body.maxStorageBytes.value.Null? ==>
              GetSettings(ApplyPut(settings, hash, body)).maxStorageBytes == None
  {
    var q := body.maxStorageBytes.value;
    PutQuota(settings, hash, body);
    if q.Bytes? {
      Decimal.ParseIntRoundTrip(q.n);
    } else {
      assert Text.TrimStart("null") == "null";
    }
  }

  /** A name written by PUT is shown trimmed by GET and becomes the login name. */
  lemma NameRoundTrip(settings: map<string, string>, hash: string -> string, body: SettingsBody)
    requires Applies(body.adminName)
    ensures GetSettings(ApplyPut(settings, hash, body)).adminName == Text.Trim(body.adminName.value)
    ensures Auth.AdminCredentials(ApplyPut(settings, hash, body), hash).username == Text.Trim(body.adminName.value)
  {
    PutCredentials(settings, hash, body);
    Text.TrimIdempotent(body.adminName.value);
  }

  /** After a PUT with a password, logging in with the trimmed password succeeds for the
      (possibly new) admin name. */
  lemma PasswordRoundTrip(settings: map<string, string>, hash: string -> string, body: SettingsBody)
    requires Applies(body.adminPassword) && hash(Text.Trim(body.adminPassword.value)) != ""
    ensures var after := ApplyPut(settings, hash, body);
            Auth.VerifyCredentials(after, hash, Auth.AdminCredentials(after, hash).username,
                                   Text.Trim(body.adminPassword.value))
  {
    PutCredentials(settings, hash, body);
  }

  /** A blank name or password leaves the credentials as they were. */
  lemma BlankFieldsIgnored(settings: map<string, string>, hash: string -> string, body: SettingsBody)
    requires !Applies(body.adminName) && !Applies(body.adminPassword)
    ensures Auth.AdminCredentials(ApplyPut(settings, hash, body), hash) == Auth.AdminCredentials(settings, hash)
  {
    PutCredentials(settings, hash, body);
  }
}
