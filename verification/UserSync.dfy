/** The two-way, additive reconcile of Linux accounts with panel users. */
module UserSync {
  import opened Text

  // -------------------------------------------------------------------------------- linux accounts

  datatype Account = Account(uid: int, shell: string)

  /** The host's accounts by name, as the passwd file has them. */
  type Accounts = map<string, Account>

  predicate LowerOrUnderscore(c: char) {
    'a' <= c <= 'z' || c == '_'
  }

  predicate ValidUsername(name: string) {
    && 0 < |name| <= 32 && LowerOrUnderscore(name[0])
    && forall c :: c in name ==> LowerOrUnderscore(c) || '0' <= c <= '9' || c == '-'
  }

  predicate SkippedUser(name: string) {
    name == "nobody" || name == "nfsnobody" || name == "nogroup" || name == "sync"
    || name == "shutdown" || name == "halt" || name == "operator"
  }

  predicate NoLogin(shell: string) {
    shell == "/usr/sbin/nologin" || shell == "/sbin/nologin" || shell == "/bin/false" || shell == "/usr/bin/nologin"
  }

  predicate Syncable(name: string, acc: Account) {
    && ValidUsername(name) && !SkippedUser(name) && !NoLogin(Trim(acc.shell))
    && (name == "root" || acc.uid >= 1000)
  }

  /** A listing of the login accounts: every syncable one, in some order. */
  ghost predicate ListingOf(listing: seq<string>, accounts: Accounts) {
    forall n :: n in listing <==> n in accounts && Syncable(n, accounts[n])
  }

  // ---------------------------------------------------------------------------------- panel users

  datatype Status = Active | Inactive | Suspended | Disabled | Deleted | OtherStatus(name: string)

  datatype User = User(username: string, ldapUsername: string, email: string, status: Status)

  function LinuxName(u: User): string {
    if Trim(u.username) != "" then Trim(u.username) else Trim(u.ldapUsername)
  }

  predicate ShouldProvision(u: User) {
    !(u.status.Deleted? || u.status.Disabled? || u.status.Suspended? || u.status.Inactive?)
  }

  predicate KnownAs(u: User, key: string) {
    (Trim(u.username) != "" && Fold(u.username) == key) || (Trim(u.ldapUsername) != "" && Fold(u.ldapUsername) == key)
  }

  /** Some panel user has this name as username or LDAP name, whatever the case. */
  ghost predicate HasPanelUser(users: seq<User>, name: string) {
    exists u :: u in users && KnownAs(u, Fold(name))
  }

  function EmailFor(name: string): string {
    name + "@localhost"
  }

  predicate Collides(u: User, name: string) {
    u.username == name || u.ldapUsername == name || u.email == EmailFor(name) || u.email == name
  }

  predicate Taken(users: seq<User>, name: string) {
    exists u :: u in users && Collides(u, name)
  }

  function NewUser(name: string): User {
    User(name, "", EmailFor(name), Active)
  }

  // ------------------------------------------------------------------------------------- one pass

  /** What lies outside: creations the database or the system refuse, and the ids useradd assigns. */
  datatype Host = Host(dbRefuses: set<string>, osRefuses: set<string>, newUid: string -> int)

  ghost function ImportAccount(h: Host, before: seq<User>, users: seq<User>, name: string): seq<User> {
    if HasPanelUser(before, name) || Taken(users, name) || name in h.dbRefuses then users
    else users + [NewUser(name)]
  }

  ghost function ImportAll(h: Host, before: seq<User>, users: seq<User>, listing: seq<string>): seq<User> {
    if listing == [] then users
    else
      var k := |listing| - 1;
      ImportAccount(h, before, ImportAll(h, before, users, listing[..k]), listing[k])
  }

  /** The accounts so far and the folded names known to exist. */
  datatype Linux = Linux(accounts: Accounts, names: set<string>)

  predicate Creates(h: Host, l: Linux, u: User) {
    var name := LinuxName(u);
    && name != "" && ShouldProvision(u) && Lower(name) !in l.names
    && name !in l.accounts && name != "root" && ValidUsername(name) && name !in h.osRefuses
  }

  predicate Notes(l: Linux, u: User) {
    var name := LinuxName(u);
    name != "" && ShouldProvision(u) && Lower(name) !in l.names && name in l.accounts
  }

  function Provision(h: Host, l: Linux, u: User): Linux {
    var name := LinuxName(u);
    if Creates(h, l, u) then Linux(l.accounts[name := Account(h.newUid(name), "/bin/bash")], l.names + {Lower(name)})
    else if Notes(l, u) then l.(names := l.names + {Lower(name)})
    else l
  }

  function ProvisionAll(h: Host, l: Linux, users: seq<User>): Linux {
    if users == [] then l
    else Provision(h, ProvisionAll(h, l, users[..|users| - 1]), users[|users| - 1])
  }

  function NamesOf(listing: seq<string>): set<string> {
    set n | n in listing :: Lower(n)
  }

  function ByUsername(panel: seq<User>): map<string, User> {
    if panel == [] then map[]
    else
      var before, u := ByUsername(panel[..|panel| - 1]), panel[|panel| - 1];
      if Trim(u.username) == "" then before else before[Fold(u.username) := u]
  }

  function ByLdap(panel: seq<User>): map<string, User> {
    if panel == [] then map[]
    else
      var before, u := ByLdap(panel[..|panel| - 1]), panel[|panel| - 1];
      if Trim(u.ldapUsername) == "" then before else before[Fold(u.ldapUsername) := u]
  }

  /** User i is the last one whose username folds to the key. */
  ghost predicate LastNamed(panel: seq<User>, i: nat, key: string) {
    && i < |panel| && Trim(panel[i].username) != "" && Fold(panel[i].username) == key
    && forall j :: i < j < |panel| ==> Trim(panel[j].username) == "" || Fold(panel[j].username) != key
  }

  ghost predicate LastLdap(panel: seq<User>, i: nat, key: string) {
    && i < |panel| && Trim(panel[i].ldapUsername) != "" && Fold(panel[i].ldapUsername) == key
    && forall j :: i < j < |panel| ==> Trim(panel[j].ldapUsername) == "" || Fold(panel[j].ldapUsername) != key
  }

  lemma {:induction false} ByUsernameMeans(panel: seq<User>, key: string, i: nat)
    requires LastNamed(panel, i, key)
    ensures key in ByUsername(panel) && ByUsername(panel)[key] == panel[i]
  {
    var k := |panel| - 1;
    if i < k {
      assert LastNamed(panel[..k], i, key);
      ByUsernameMeans(panel[..k], key, i);
    }
  }

  lemma {:induction false} ByLdapMeans(panel: seq<User>, key: string, i: nat)
    requires LastLdap(panel, i, key)
    ensures key in ByLdap(panel) && ByLdap(panel)[key] == panel[i]
  {
    var k := |panel| - 1;
    if i < k {
      assert LastLdap(panel[..k], i, key);
      ByLdapMeans(panel[..k], key, i);
    }
  }

  /** A key is in one of the indexes exactly if some user is known by it. */
  lemma {:induction false} IndexesMean(panel: seq<User>, key: string)
    ensures key in ByUsername(panel) || key in ByLdap(panel) <==> exists u :: u in panel && KnownAs(u, key)
  {
    if panel != [] {
      var k := |panel| - 1;
      IndexesMean(panel[..k], key);
      assert panel == panel[..k] + [panel[k]];
      if u :| u in panel[..k] && KnownAs(u, key) { assert u in panel; }
      assert panel[k] in panel;
    }
  }

  class Syncer {
    var accounts: Accounts
    var users: seq<User>

    /** Folded usernames and LDAP names of the users, each with the last user that has it. */
    method IndexUsers(panel: seq<User>) returns (byUsername: map<string, User>, byLdap: map<string, User>)
      ensures byUsername == ByUsername(panel) && byLdap == ByLdap(panel)
    {
      byUsername, byLdap := map[], map[];
      for i := 0 to |panel|
        invariant byUsername == ByUsername(panel[..i]) && byLdap == ByLdap(panel[..i])
      {
        var u := panel[i];
        assert panel[..i + 1][..i] == panel[..i];
        if Trim(u.username) != "" {
          byUsername := byUsername[Fold(u.username) := u];
        }
        if Trim(u.ldapUsername) != "" {
          byLdap := byLdap[Fold(u.ldapUsername) := u];
        }
      }
      assert panel[..|panel|] == panel;
    }

    method CreatePanelUserFromLinux(h: Host, name: string)
      modifies this`users
      ensures users == if Taken(old(users), name) || name in h.dbRefuses then old(users)
                       else old(users) + [NewUser(name)]
    {
      if Taken(users, name) || name in h.dbRefuses {
        return;
      }
      users := users + [NewUser(name)];
    }

    method ImportOne(h: Host, ghost before: seq<User>, byUsername: map<string, User>,
                     byLdap: map<string, User>, name: string)
      requires byUsername == ByUsername(before) && byLdap == ByLdap(before)
      modifies this`users
      ensures users == ImportAccount(h, before, old(users), name)
    {
      var key := Fold(name);
      IndexesMean(before, key);
      if key !in byUsername && key !in byLdap {
        CreatePanelUserFromLinux(h, name);
      }
    }

    /** Linux to panel: an account no user is known by gets one. */
    method ImportAccounts(h: Host, listing: seq<string>) returns (names: set<string>)
      requires forall n :: n in listing ==> ValidUsername(n)
      modifies this`users
      ensures users == ImportAll(h, old(users), old(users), listing) && names == NamesOf(listing)
    {
      var byUsername, byLdap := IndexUsers(users);
      names := {};
      for i := 0 to |listing|
        invariant users == ImportAll(h, old(users), old(users), listing[..i]) && names == NamesOf(listing[..i])
      {
        var name := listing[i];
        assert listing[..i + 1][..i] == listing[..i] && listing[..i + 1] == listing[..i] + [name];
        ValidIsFolded(name);
        names := names + {Lower(name)};
        ImportOne(h, old(users), byUsername, byLdap, name);
      }
      assert listing[..|listing|] == listing;
    }

    /** Panel to Linux: a provisionable user without an account gets one. */
    method ProvisionUsers(h: Host, panel: seq<User>, known: set<string>)
      modifies this`accounts
      ensures accounts == ProvisionAll(h, Linux(old(accounts), known), panel).accounts
    {
      var names := known;
      for i := 0 to |panel|
        invariant Linux(accounts, names) == ProvisionAll(h, Linux(old(accounts), known), panel[..i])
      {
        assert panel[..i + 1][..i] == panel[..i];
        var u := panel[i];
        var name := LinuxName(u);
        if name == "" {
        } else if !ShouldProvision(u) {
        } else if Lower(name) in names {
        } else if name in accounts {
          names := names + {Lower(name)};
        } else if name == "root" {
        } else if !ValidUsername(name) || name in h.osRefuses {
        } else {
          accounts := accounts[name := Account(h.newUid(name), "/bin/bash")];
          names := names + {Lower(name)};
        }
      }
      assert panel[..|panel|] == panel;
    }

    method Sync(h: Host, listing: seq<string>)
      requires ListingOf(listing, accounts)
      modifies this
      ensures users == SyncedUsers(h, old(users), listing)
      ensures accounts == SyncedAccounts(h, old(accounts), old(users), listing)
    {
      var panel := users;
      var names := ImportAccounts(h, listing);
      ProvisionUsers(h, panel, names);
    }
  }

  ghost function SyncedUsers(h: Host, users: seq<User>, listing: seq<string>): seq<User> {
    ImportAll(h, users, users, listing)
  }

  function SyncedAccounts(h: Host, accounts: Accounts, users: seq<User>, listing: seq<string>): Accounts {
    ProvisionAll(h, Linux(accounts, NamesOf(listing)), users).accounts
  }

  // ------------------------------------------------------------------------------ folding and names

  lemma ValidIsFolded(name: string)
    requires ValidUsername(name)
    ensures Trim(name) == name && Lower(name) == name && Fold(name) == name
  {
    assert name[0] in name && name[|name| - 1] in name;
    TrimFixed(name);
    LowerAt(name);
    forall i | 0 <= i < |name|
      ensures Lower(name)[i] == name[i]
    {
      assert name[i] in name;
    }
    assert Lower(name) == name;
  }

  /** A user is known by the name an account for it would have. */
  lemma KnownByLinuxName(u: User)
    requires LinuxName(u) != ""
    ensures KnownAs(u, Lower(LinuxName(u))) && Trim(LinuxName(u)) == LinuxName(u)
  {
    TrimTrims(u.username);
    TrimTrims(u.ldapUsername);
    TrimFixed(LinuxName(u));
  }

  const INITIALS: string := "abcdefghijklmnopqrstuvwxyz_"
  const FOLLOWERS: string := "abcdefghijklmnopqrstuvwxyz_0123456789-"

  lemma InitialMeans(c: char)
    ensures LowerOrUnderscore(c) <==> c in INITIALS
  {
    assert forall i :: 0 <= i < 26 ==> INITIALS[i] == 'a' + i as char;
    if 'a' <= c <= 'z' { assert INITIALS[(c - 'a') as int] == c; }
    assert INITIALS[26] == '_';
  }

  lemma FollowerMeans(c: char)
    ensures LowerOrUnderscore(c) || '0' <= c <= '9' || c == '-' <==> c in FOLLOWERS
  {
    InitialMeans(c);
    var rest := "0123456789-";
    assert FOLLOWERS == INITIALS + rest;
    assert forall i :: 0 <= i < 10 ==> rest[i] == '0' + i as char;
    if '0' <= c <= '9' { assert rest[(c - '0') as int] == c; }
    assert rest[10] == '-';
  }

  /** A valid name has 1 to 32 characters, all of them these, and begins with a letter or an underscore. */
  lemma ValidUsernameMeans(name: string)
    ensures ValidUsername(name) <==>
            && 1 <= |name| <= 32 && name[0] in INITIALS
            && forall i :: 0 <= i < |name| ==> name[i] in FOLLOWERS
  {
    forall c
      ensures LowerOrUnderscore(c) <==> c in INITIALS
      ensures LowerOrUnderscore(c) || '0' <= c <= '9' || c == '-' <==> c in FOLLOWERS
    {
      InitialMeans(c);
      FollowerMeans(c);
    }
    if forall i :: 0 <= i < |name| ==> name[i] in FOLLOWERS {
      forall c | c in name
        ensures c in FOLLOWERS
      {
        var i :| 0 <= i < |name| && name[i] == c;
      }
    }
    if forall c :: c in name ==> c in FOLLOWERS {
      forall i | 0 <= i < |name|
        ensures name[i] in FOLLOWERS
      {
        assert name[i] in name;
      }
    }
  }

  /** The account for this user would have this name: the username, or the LDAP name if that is blank. */
  predicate NamedFor(u: User, name: string) {
    (Trim(u.username) != "" && Trim(u.username) == name) || (Trim(u.username) == "" && Trim(u.ldapUsername) == name)
  }

  predicate Barred(u: User) {
    u.status == Deleted || u.status == Disabled || u.status == Suspended || u.status == Inactive
  }

  // ------------------------------------------------------------------------------------- additive

  lemma {:induction false} ImportOnlyAppends(h: Host, before: seq<User>, users: seq<User>, listing: seq<string>)
    ensures var r := ImportAll(h, before, users, listing); |users| <= |r| && r[..|users|] == users
  {
    if listing != [] {
      ImportOnlyAppends(h, before, users, listing[..|listing| - 1]);
    }
  }

  lemma {:induction false} ProvisionOnlyAdds(h: Host, l: Linux, users: seq<User>)
    ensures var r := ProvisionAll(h, l, users);
            && l.names <= r.names
            && forall n :: n in l.accounts ==> n in r.accounts && r.accounts[n] == l.accounts[n]
  {
    if users != [] {
      ProvisionOnlyAdds(h, l, users[..|users| - 1]);
    }
  }

  /** A pass changes no existing panel row and no existing account. */
  lemma SyncIsAdditive(h: Host, accounts: Accounts, users: seq<User>, listing: seq<string>)
    ensures |users| <= |SyncedUsers(h, users, listing)|
    ensures SyncedUsers(h, users, listing)[..|users|] == users
    ensures forall n :: n in accounts ==> n in SyncedAccounts(h, accounts, users, listing)
                                          && SyncedAccounts(h, accounts, users, listing)[n] == accounts[n]
  {
    ImportOnlyAppends(h, users, users, listing);
    ProvisionOnlyAdds(h, Linux(accounts, NamesOf(listing)), users);
  }

  // ------------------------------------------------------------------------- every account is known

  /** The account needs no user: one is known by its name, one collides, or creation is refused. */
  ghost predicate Settled(h: Host, users: seq<User>, name: string) {
    HasPanelUser(users, name) || Taken(users, name) || name in h.dbRefuses
  }

  lemma MoreUsersStaySettled(h: Host, users: seq<User>, more: seq<User>, name: string)
    requires |users| <= |more| && more[..|users|] == users && Settled(h, users, name)
    ensures Settled(h, more, name)
  {
    forall u | u in users
      ensures u in more
    {
      var i :| 0 <= i < |users| && users[i] == u;
      assert more[i] == u;
    }
    if HasPanelUser(users, name) {
      var u :| u in users && KnownAs(u, Fold(name));
      assert u in more;
    } else if Taken(users, name) {
      var u :| u in users && Collides(u, name);
      assert u in more;
    }
  }

  lemma {:induction false} ImportSettles(h: Host, before: seq<User>, listing: seq<string>, name: string)
    requires name in listing
    ensures Settled(h, ImportAll(h, before, before, listing), name)
  {
    var k := |listing| - 1;
    var sofar := ImportAll(h, before, before, listing[..k]);
    var all := ImportAll(h, before, before, listing);
    if listing[k] == name {
      if HasPanelUser(before, name) {
        ImportOnlyAppends(h, before, before, listing);
        MoreUsersStaySettled(h, before, all, name);
      } else if !Settled(h, sofar, name) {
        assert all[|sofar|] == NewUser(name);
        assert Collides(NewUser(name), name) && NewUser(name) in all;
      } else if Taken(sofar, name) {
        assert all == sofar;
      }
    } else {
      assert listing == listing[..k] + [listing[k]];
      ImportSettles(h, before, listing[..k], name);
      MoreUsersStaySettled(h, sofar, all, name);
    }
  }

  lemma {:induction false} SettledImportsNothing(h: Host, users: seq<User>, listing: seq<string>)
    requires forall n :: n in listing ==> Settled(h, users, n)
    ensures ImportAll(h, users, users, listing) == users
  {
    if listing != [] {
      var k := |listing| - 1;
      assert listing == listing[..k] + [listing[k]];
      assert listing[k] in listing;
      SettledImportsNothing(h, users, listing[..k]);
    }
  }

  /** An account that was not there before was created for a panel user of that name. */
  lemma {:induction false} NewAccountHasUser(h: Host, l: Linux, users: seq<User>, name: string)
    requires name in ProvisionAll(h, l, users).accounts && name !in l.accounts
    ensures ValidUsername(name) && exists u :: u in users && LinuxName(u) == name
  {
    var k := |users| - 1;
    if name in ProvisionAll(h, l, users[..k]).accounts {
      NewAccountHasUser(h, l, users[..k], name);
      var u :| u in users[..k] && LinuxName(u) == name;
      assert u in users;
    } else {
      assert users[k] in users && LinuxName(users[k]) == name;
    }
  }

  /** An account is only ever created for a panel user of that name who is neither deleted, disabled,
      suspended nor inactive, never for root, and it gets the shell and the id of a new account. */
  lemma {:induction false} CreatedForUser(h: Host, l: Linux, users: seq<User>, name: string)
    requires name in ProvisionAll(h, l, users).accounts && name !in l.accounts
    ensures exists u :: u in users && NamedFor(u, name) && !Barred(u)
    ensures name != "root" && ValidUsername(name) && name !in h.osRefuses
    ensures ProvisionAll(h, l, users).accounts[name] == Account(h.newUid(name), "/bin/bash")
  {
    var k := |users| - 1;
    if name in ProvisionAll(h, l, users[..k]).accounts {
      CreatedForUser(h, l, users[..k], name);
      var u :| u in users[..k] && NamedFor(u, name) && !Barred(u);
      assert u in users;
    } else {
      assert users[k] in users && NamedFor(users[k], name) && !Barred(users[k]);
    }
  }

  /** So a pass creates nothing for users who may not log in, or whose only namesakes may not. */
  lemma NobodyBarredGetsAccount(h: Host, accounts: Accounts, users: seq<User>, listing: seq<string>, name: string)
    requires name in SyncedAccounts(h, accounts, users, listing)
    requires forall u :: u in users && NamedFor(u, name) ==> Barred(u)
    ensures name in accounts
  {
    if name !in accounts {
      CreatedForUser(h, Linux(accounts, NamesOf(listing)), users, name);
      assert false;
    }
  }

  // ------------------------------------------------------------------------ which accounts get users

  /** No panel user has this name, as username or LDAP name, whatever the case, or as an address. */
  ghost predicate UnknownTo(users: seq<User>, name: string) {
    forall u :: u in users ==>
                  && Fold(u.username) != name && Fold(u.ldapUsername) != name
                  && u.username != name && u.ldapUsername != name
                  && u.email != name && u.email != name + "@localhost"
  }

  /** The account is one a person logs in with. */
  predicate LoginAccount(name: string, acc: Account) {
    && ValidUsername(name) && (name == "root" || acc.uid >= 1000)
    && name !in ["nobody", "nfsnobody", "nogroup", "sync", "shutdown", "halt", "operator"]
    && Trim(acc.shell) !in ["/usr/sbin/nologin", "/sbin/nologin", "/bin/false", "/usr/bin/nologin"]
  }

  lemma LoginAccountIff(name: string, acc: Account)
    ensures Syncable(name, acc) <==> LoginAccount(name, acc)
  {
  }

  lemma AddressesDiffer(m: string, n: string)
    requires ValidUsername(m) && ValidUsername(n)
    ensures m + "@localhost" != n && (m + "@localhost" == n + "@localhost" ==> m == n)
  {
    var x, y := m + "@localhost", n + "@localhost";
    assert x[|m|] == '@' && '@' in x && '@' !in n;
    assert m == x[..|x| - 10] && n == y[..|y| - 10];
  }

  lemma NewUsersCollide(m: string, n: string)
    requires ValidUsername(m) && ValidUsername(n) && Collides(NewUser(m), n)
    ensures m == n
  {
    AddressesDiffer(m, n);
  }

  lemma UnknownMeans(users: seq<User>, n: string)
    requires ValidUsername(n)
    ensures UnknownTo(users, n) <==> !HasPanelUser(users, n) && !Taken(users, n)
  {
    ValidIsFolded(n);
    assert Lower("") == "";
  }

  /** Every row a pass appends is a new user for a listed account that nobody was known by. */
  lemma {:induction false} AppendedWereUnknown(h: Host, before: seq<User>, listing: seq<string>, i: nat)
    requires forall n :: n in listing ==> ValidUsername(n)
    requires |before| <= i < |ImportAll(h, before, before, listing)|
    ensures exists n :: && n in listing && UnknownTo(before, n) && n !in h.dbRefuses
                        && ImportAll(h, before, before, listing)[i] == User(n, "", n + "@localhost", Active)
  {
    var k := |listing| - 1;
    var sofar := ImportAll(h, before, before, listing[..k]);
    ImportOnlyAppends(h, before, before, listing[..k]);
    assert listing == listing[..k] + [listing[k]];
    if i < |sofar| {
      AppendedWereUnknown(h, before, listing[..k], i);
      var n :| && n in listing[..k] && UnknownTo(before, n) && n !in h.dbRefuses
               && sofar[i] == User(n, "", n + "@localhost", Active);
      assert n in listing;
    } else {
      var n := listing[k];
      assert n in listing;
      PrefixIsUntaken(before, sofar, n);
      UnknownMeans(before, n);
    }
  }

  lemma PrefixIsUntaken(before: seq<User>, users: seq<User>, n: string)
    requires |before| <= |users| && users[..|before|] == before && !Taken(users, n)
    ensures !Taken(before, n)
  {
    forall u | u in before
      ensures u in users
    {
      var i :| 0 <= i < |before| && before[i] == u;
      assert users[i] == u;
    }
  }

  /** Every listed account that nobody was known by gets a row, if the database accepts it. */
  lemma {:induction false} UnknownIsAppended(h: Host, before: seq<User>, listing: seq<string>, n: string)
    requires forall m :: m in listing ==> ValidUsername(m)
    requires n in listing && UnknownTo(before, n) && n !in h.dbRefuses
    ensures |before| <= |ImportAll(h, before, before, listing)|
    ensures User(n, "", n + "@localhost", Active) in ImportAll(h, before, before, listing)[|before|..]
  {
    var k := |listing| - 1;
    var sofar, all := ImportAll(h, before, before, listing[..k]), ImportAll(h, before, before, listing);
    ImportOnlyAppends(h, before, before, listing[..k]);
    ImportOnlyAppends(h, before, before, listing);
    assert listing == listing[..k] + [listing[k]];
    UnknownMeans(before, n);
    if n in listing[..k] {
      UnknownIsAppended(h, before, listing[..k], n);
      assert all == sofar || all == sofar + [NewUser(listing[k])];
      assert sofar[|before|..] <= all[|before|..];
    } else if Taken(sofar, n) {
      TakenByNew(h, before, listing[..k], n);
      assert all == sofar;
    } else {
      assert all == sofar + [NewUser(n)];
      assert all[|before|..][|sofar| - |before|] == NewUser(n);
    }
  }

  lemma TakenByNew(h: Host, before: seq<User>, listing: seq<string>, n: string)
    requires forall m :: m in listing ==> ValidUsername(m)
    requires ValidUsername(n) && !Taken(before, n) && Taken(ImportAll(h, before, before, listing), n)
    ensures |before| <= |ImportAll(h, before, before, listing)|
    ensures NewUser(n) in ImportAll(h, before, before, listing)[|before|..]
  {
    var all := ImportAll(h, before, before, listing);
    ImportOnlyAppends(h, before, before, listing);
    forall j | 0 <= j < |before|
      ensures !Collides(all[j], n)
    {
      assert all[j] == before[j] && before[j] in before;
    }
    var i :| 0 <= i < |all| && Collides(all[i], n);
    AppendedWereUnknown(h, before, listing, i);
    var m :| m in listing && all[i] == User(m, "", m + "@localhost", Active);
    NewUsersCollide(m, n);
    assert all[|before|..][i - |before|] == NewUser(n);
  }

  /** A pass adds a panel user exactly for the login accounts nobody was known by, unless the database
      refuses: active, without an LDAP name, and with a local address. */
  lemma AppendedIff(h: Host, accounts: Accounts, users: seq<User>, listing: seq<string>, u: User)
    requires ListingOf(listing, accounts)
    ensures |users| <= |SyncedUsers(h, users, listing)|
    ensures u in SyncedUsers(h, users, listing)[|users|..] <==>
            exists n :: && n in accounts && LoginAccount(n, accounts[n]) && UnknownTo(users, n) && n !in h.dbRefuses
                        && u == User(n, "", n + "@localhost", Active)
  {
    var all := SyncedUsers(h, users, listing);
    ImportOnlyAppends(h, users, users, listing);
    if u in all[|users|..] {
      var i :| 0 <= i < |all[|users|..]| && all[|users|..][i] == u;
      AppendedWereUnknown(h, users, listing, |users| + i);
      var n :| && n in listing && UnknownTo(users, n) && n !in h.dbRefuses
               && all[|users| + i] == User(n, "", n + "@localhost", Active);
      LoginAccountIff(n, accounts[n]);
    }
    if n :| && n in accounts && LoginAccount(n, accounts[n]) && UnknownTo(users, n) && n !in h.dbRefuses
            && u == User(n, "", n + "@localhost", Active) {
      LoginAccountIff(n, accounts[n]);
      UnknownIsAppended(h, users, listing, n);
    }
  }

  /** After a pass every account a listing would name matches a panel row by username, LDAP name or
      email, or the database refused to create one. */
  lemma AccountsAreKnown(h: Host, accounts: Accounts, users: seq<User>, listing: seq<string>, name: string)
    requires ListingOf(listing, accounts)
    requires var after := SyncedAccounts(h, accounts, users, listing); name in after && Syncable(name, after[name])
    ensures Settled(h, SyncedUsers(h, users, listing), name)
  {
    SyncIsAdditive(h, accounts, users, listing);
    if name in accounts {
      ImportSettles(h, users, listing, name);
    } else {
      NewAccountHasUser(h, Linux(accounts, NamesOf(listing)), users, name);
      var u :| u in users && LinuxName(u) == name;
      KnownByLinuxName(u);
      ValidIsFolded(name);
      assert HasPanelUser(users, name);
      MoreUsersStaySettled(h, users, SyncedUsers(h, users, listing), name);
    }
  }

  // --------------------------------------------------------------------------------- the fixpoint

  /** A later pass over the same users knows at least as many names and creates nothing. */
  lemma {:induction false} SecondPassCreatesNothing(h: Host, first: Linux, second: Linux, users: seq<User>, n: nat)
    requires n <= |users| && first.names <= second.names
    requires ProvisionAll(h, first, users).accounts == second.accounts
    ensures ProvisionAll(h, second, users[..n]).accounts == second.accounts
    ensures ProvisionAll(h, first, users[..n]).names <= ProvisionAll(h, second, users[..n]).names
  {
    if n > 0 {
      SecondPassCreatesNothing(h, first, second, users, n - 1);
      var u := users[n - 1];
      var one, two := ProvisionAll(h, first, users[..n - 1]), ProvisionAll(h, second, users[..n - 1]);
      assert users[..n][..n - 1] == users[..n - 1];
      assert users[..n][n - 1] == u;
      if LinuxName(u) in Provision(h, one, u).accounts {
        PrefixAccounts(h, first, users, n);
        assert ProvisionAll(h, first, users[..n]) == Provision(h, one, u);
        assert LinuxName(u) in second.accounts;
      }
    }
  }

  lemma {:induction false} PrefixAccounts(h: Host, l: Linux, users: seq<User>, n: nat)
    requires n <= |users|
    ensures ProvisionAll(h, l, users[..n]).accounts.Keys <= ProvisionAll(h, l, users).accounts.Keys
    decreases |users| - n
  {
    if n < |users| {
      PrefixAccounts(h, l, users, n + 1);
      assert users[..n + 1][..n] == users[..n];
    } else {
      assert users[..n] == users;
    }
  }

  /** Users the first pass added have accounts already. */
  lemma {:induction false} ImportedHaveAccounts(h: Host, before: seq<User>, listing: seq<string>, i: nat)
    requires |before| <= i < |ImportAll(h, before, before, listing)|
    ensures exists n :: n in listing && ImportAll(h, before, before, listing)[i] == NewUser(n)
  {
    var k := |listing| - 1;
    if i < |ImportAll(h, before, before, listing[..k])| {
      ImportedHaveAccounts(h, before, listing[..k], i);
      var n :| n in listing[..k] && ImportAll(h, before, before, listing[..k])[i] == NewUser(n);
      assert n in listing;
    } else {
      assert listing[k] in listing;
    }
  }

  lemma {:induction false} KnownUsersCreateNothing(h: Host, l: Linux, users: seq<User>, n: nat)
    requires n <= |users|
    requires forall i :: n <= i < |users| ==> Lower(LinuxName(users[i])) in l.names
    ensures ProvisionAll(h, l, users).accounts == ProvisionAll(h, l, users[..n]).accounts
  {
    if n < |users| {
      var k := |users| - 1;
      KnownUsersCreateNothing(h, l, users[..k], n);
      assert users[..k][..n] == users[..n];
      ProvisionOnlyAdds(h, l, users[..k]);
    } else {
      assert users[..n] == users;
    }
  }

  /** A second pass over what the first one left changes nothing, whatever was refused. */
  lemma SyncFixpoint(h: Host, accounts: Accounts, users: seq<User>, listing: seq<string>, again: seq<string>)
    requires ListingOf(listing, accounts)
    requires ListingOf(again, SyncedAccounts(h, accounts, users, listing))
    ensures var users1 := SyncedUsers(h, users, listing);
            var accounts1 := SyncedAccounts(h, accounts, users, listing);
            && SyncedUsers(h, users1, again) == users1
            && SyncedAccounts(h, accounts1, users1, again) == accounts1
  {
    var users1 := SyncedUsers(h, users, listing);
    var accounts1 := SyncedAccounts(h, accounts, users, listing);
    SyncIsAdditive(h, accounts, users, listing);
    forall n | n in again
      ensures Settled(h, users1, n)
    {
      AccountsAreKnown(h, accounts, users, listing, n);
    }
    SettledImportsNothing(h, users1, again);

    forall n | n in listing
      ensures n in again
    {
    }
    var first, second := Linux(accounts, NamesOf(listing)), Linux(accounts1, NamesOf(again));
    SecondPassCreatesNothing(h, first, second, users, |users|);
    assert users[..|users|] == users;
    forall i | |users| <= i < |users1|
      ensures Lower(LinuxName(users1[i])) in second.names
    {
      ImportedHaveAccounts(h, users, listing, i);
      var n :| n in listing && users1[i] == NewUser(n);
      ValidIsFolded(n);
      assert LinuxName(users1[i]) == n;
    }
    KnownUsersCreateNothing(h, second, users1, |users|);
  }

  // ------------------------------------------------------------------------- every user has an account

  ghost predicate Wants(u: User, name: string) {
    ShouldProvision(u) && LinuxName(u) == name
  }

  /** Before user i, a provisionable user is named like an existing account that differs from the
      name in case only. */
  ghost predicate Shadowed(accounts: Accounts, users: seq<User>, i: nat, name: string) {
    exists j :: && 0 <= j < i && j < |users| && ShouldProvision(users[j])
                && LinuxName(users[j]) in accounts && LinuxName(users[j]) != name
                && Lower(LinuxName(users[j])) == name
  }

  lemma {:induction false} NameAppears(h: Host, accounts: Accounts, listing: seq<string>, users: seq<User>,
                                       i: nat, name: string)
    requires ListingOf(listing, accounts) && i <= |users|
    requires ValidUsername(name) && name !in accounts
    requires forall j :: 0 <= j < i ==> !Wants(users[j], name)
    ensures var l := ProvisionAll(h, Linux(accounts, NamesOf(listing)), users[..i]);
            && (name in l.names <==> Shadowed(accounts, users, i, name)) && name !in l.accounts
            && (forall n :: n in l.accounts && n !in accounts ==> ValidUsername(n))
  {
    if i == 0 {
      forall n | n in listing
        ensures Lower(n) != name
      {
        ValidIsFolded(n);
      }
    } else {
      NameAppears(h, accounts, listing, users, i - 1, name);
      assert users[..i][..i - 1] == users[..i - 1];
      var u := users[i - 1];
      assert users[..i][i - 1] == u;
      var ln := LinuxName(u);
      assert !Wants(u, name);
      ShadowGrows(accounts, users, i, name);
      ProvisionOnlyAdds(h, Linux(accounts, NamesOf(listing)), users[..i - 1]);
      NameStep(h, ProvisionAll(h, Linux(accounts, NamesOf(listing)), users[..i - 1]), accounts, u, name);
    }
  }

  /** One user makes the name known exactly if it is that user's in all but case. */
  lemma NameStep(h: Host, l: Linux, accounts: Accounts, u: User, name: string)
    requires accounts.Keys <= l.accounts.Keys && name !in l.accounts && !Wants(u, name) && name != ""
    requires forall n :: n in l.accounts && n !in accounts ==> ValidUsername(n)
    ensures var next := Provision(h, l, u);
            && (name in next.names <==>
                  || name in l.names
                  || (ShouldProvision(u) && LinuxName(u) in accounts && LinuxName(u) != name
                      && Lower(LinuxName(u)) == name))
            && name !in next.accounts
            && (forall n :: n in next.accounts && n !in accounts ==> ValidUsername(n))
  {
    var ln := LinuxName(u);
    if ValidUsername(ln) {
      ValidIsFolded(ln);
    }
    assert Lower("") == "";
  }

  lemma ShadowGrows(accounts: Accounts, users: seq<User>, i: nat, name: string)
    requires 0 < i <= |users|
    ensures Shadowed(accounts, users, i, name) <==>
            || Shadowed(accounts, users, i - 1, name)
            || (ShouldProvision(users[i - 1]) && LinuxName(users[i - 1]) in accounts
                && LinuxName(users[i - 1]) != name && Lower(LinuxName(users[i - 1])) == name)
  {
  }

  lemma {:induction false} KnownNameIsNeverCreated(h: Host, l: Linux, users: seq<User>, name: string)
    requires ValidUsername(name) && name in l.names && name !in l.accounts
    ensures name !in ProvisionAll(h, l, users).accounts
  {
    if users != [] {
      var k := |users| - 1;
      KnownNameIsNeverCreated(h, l, users[..k], name);
      ProvisionOnlyAdds(h, l, users[..k]);
      ValidIsFolded(name);
    }
  }

  /** A validly named panel user other than root who is not barred ends up with an account exactly if
      there was one, or no earlier user is named like an account that only differs in case. User i
      is the first one with that name. */
  lemma UserHasAccountIff(h: Host, accounts: Accounts, users: seq<User>, listing: seq<string>, i: nat)
    requires ListingOf(listing, accounts) && i < |users| && !Barred(users[i])
    requires var name := LinuxName(users[i]);
             && ValidUsername(name) && name != "root" && name !in h.osRefuses
             && forall j :: 0 <= j < i ==> !Wants(users[j], name)
    ensures var name := LinuxName(users[i]);
            name in SyncedAccounts(h, accounts, users, listing) <==>
            name in accounts || !Shadowed(accounts, users, i, name)
  {
    var name := LinuxName(users[i]);
    var l := Linux(accounts, NamesOf(listing));
    if name in accounts {
      ProvisionOnlyAdds(h, l, users);
    } else {
      NameAppears(h, accounts, listing, users, i, name);
      ValidIsFolded(name);
      var before := ProvisionAll(h, l, users[..i]);
      assert users[..i + 1][..i] == users[..i];
      if name in before.names {
        KnownNameIsNeverCreated(h, before, users[i..], name);
        ProvisionSplits(h, l, users, i);
      } else {
        assert name in ProvisionAll(h, l, users[..i + 1]).accounts;
        PrefixAccounts(h, l, users, i + 1);
      }
    }
  }

  lemma TailSplits(users: seq<User>, i: nat)
    requires i < |users|
    ensures var k, tail := |users| - 1, users[i..];
            tail[..|tail| - 1] == users[..k][i..] && tail[|tail| - 1] == users[k] && users[..k][..i] == users[..i]
  {
  }

  lemma {:induction false} ProvisionSplits(h: Host, l: Linux, users: seq<User>, i: nat)
    requires i <= |users|
    ensures ProvisionAll(h, l, users) == ProvisionAll(h, ProvisionAll(h, l, users[..i]), users[i..])
  {
    if i == |users| {
      assert users[..i] == users && users[i..] == [];
    } else {
      TailSplits(users, i);
      ProvisionSplits(h, l, users[..|users| - 1], i);
    }
  }

  /** The shadow is real: with an account "Bob" and users "Bob" and "bob", "bob" never gets one. */
  lemma ShadowedUserHasNone(h: Host)
    ensures var accounts := map["Bob" := Account(1000, "/bin/bash")];
            var users := [User("Bob", "", "", Active), User("bob", "", "", Active)];
            && ListingOf([], accounts)
            && "bob" !in SyncedAccounts(h, accounts, users, [])
  {
    var accounts := map["Bob" := Account(1000, "/bin/bash")];
    var users := [User("Bob", "", "", Active), User("bob", "", "", Active)];
    TrimFixed("Bob");
    TrimFixed("bob");
    assert Lower("Bob") == "bob" by { LowerAt("Bob"); }
    var l := Linux(accounts, {});
    assert NamesOf([]) == {};
    assert !ValidUsername("Bob");
    assert users[..1] == [users[0]] && users[..1][..0] == [];
    assert ProvisionAll(h, l, users[..1]) == Provision(h, l, users[0]) == l.(names := {"bob"});
    assert Lower("bob") == "bob" by { LowerAt("bob"); }
    assert ProvisionAll(h, l, users) == Provision(h, l.(names := {"bob"}), users[1]);
  }
}
