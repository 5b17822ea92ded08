/**
 * The text of the Redis keys. `Keyspace` keeps keys apart by what they are for; this is exactly when their
 * texts do so too.
 */
module KeyNames {
  import VerifyEmail

  const USERS := "USERS"
  const LAST_SYNC := ".lastSync"
  const INDEX := ".accounts"
  const ACCOUNT := ".account."
  const STEM := ".account"

  datatype Key = Users | LastSync(user: string) | Index(user: string) | Account(user: string, name: string)

  function KeyText(k: Key): string {
    match k
    case Users => USERS
    case LastSync(u) => u + LAST_SYNC
    case Index(u) => u + INDEX
    case Account(u, n) => u + ACCOUNT + n
  }

  /** The key of a user of the set, or the hash of all users. */
  ghost predicate Of(k: Key, users: set<string>) {
    k.Users? || k.user in users
  }

  /** User `v` is user `u` followed by the stem of an account key, alone or with more behind it. */
  ghost predicate Extends(v: string, u: string) {
    v == u + STEM || exists x :: v == u + ACCOUNT + x
  }

  /** The separator overlaps itself only at its last character, the dot it also begins with. */
  lemma Overlap(u: string, v: string, s: string, t: string, n: string)
    requires |u| < |v| && u + ACCOUNT + n == v + s + t && |s| == 9 && s[0] == '.'
    ensures Extends(v, u)
  {
    var all, d := u + ACCOUNT + n, |v| - |u|;
    assert all == v + s + t;
    assert v == all[..|v|] && all[|v|] == '.';
    if d >= 9 {
      assert v == u + ACCOUNT + all[|u| + 9..|v|];
    } else {
      assert all[|u| + d] == ACCOUNT[d];
      assert d == 8;
      assert v == u + STEM;
    }
  }

  /** What stands behind the user in the text of a key. */
  function Rest(k: Key): string
    requires !k.Users?
  {
    match k
    case LastSync(_) => LAST_SYNC
    case Index(_) => INDEX
    case Account(_, n) => ACCOUNT + n
  }

  lemma TextIs(k: Key)
    requires !k.Users?
    ensures KeyText(k) == k.user + Rest(k) && |Rest(k)| >= 9 && Rest(k)[0] == '.'
    ensures k.Account? <==> Rest(k)[8] == '.'
    ensures k.Index? <==> Rest(k)[8] == 's'
    ensures !k.Account? ==> |Rest(k)| == 9
    ensures k.Account? ==> Rest(k)[9..] == k.name
  {
  }

  lemma SameUser(j: Key, k: Key)
    requires !j.Users? && !k.Users? && j.user == k.user && KeyText(j) == KeyText(k)
    ensures j == k
  {
    TextIs(j);
    TextIs(k);
    assert Rest(j) == KeyText(j)[|j.user|..] == Rest(k);
  }

  lemma LongerUser(j: Key, k: Key)
    requires !j.Users? && !k.Users? && |j.user| < |k.user| && KeyText(j) == KeyText(k)
    ensures Extends(k.user, j.user)
  {
    TextIs(j);
    TextIs(k);
    assert |KeyText(j)| > |j.user| + 9;
    assert KeyText(k) == k.user + Rest(k)[..9] + Rest(k)[9..];
    Overlap(j.user, k.user, Rest(k)[..9], Rest(k)[9..], j.name);
  }

  lemma SameText(j: Key, k: Key)
    requires KeyText(j) == KeyText(k)
    ensures j == k || (!j.Users? && !k.Users? && (Extends(k.user, j.user) || Extends(j.user, k.user)))
  {
    if j.Users? || k.Users? {
      assert |KeyText(j)| == 5;
    } else if |j.user| < |k.user| {
      LongerUser(j, k);
    } else if |k.user| < |j.user| {
      LongerUser(k, j);
    } else {
      TextIs(j);
      TextIs(k);
      assert j.user == KeyText(j)[..|j.user|] == k.user;
      SameUser(j, k);
    }
  }

  /** Two different keys with one text. */
  lemma ExtensionCollides(v: string, u: string)
    requires Extends(v, u)
    ensures exists n, m :: KeyText(Account(u, n)) == KeyText(Account(v, m)) && v != u
  {
    if v == u + STEM {
      assert ACCOUNT == STEM + ".";
      assert u + ACCOUNT + "account." == v + ACCOUNT + "";
      assert KeyText(Account(u, "account.")) == KeyText(Account(v, ""));
    } else {
      var x :| v == u + ACCOUNT + x;
      assert u + ACCOUNT + (x + ACCOUNT) == v + ACCOUNT + "";
      assert KeyText(Account(u, x + ACCOUNT)) == KeyText(Account(v, ""));
    }
  }

  /** The keys of a set of users have different texts if and only if no user extends another. */
  lemma KeysApartIff(users: set<string>)
    ensures (forall j: Key, k: Key :: Of(j, users) && Of(k, users) && KeyText(j) == KeyText(k) ==> j == k)
            <==> forall u, v :: u in users && v in users ==> !Extends(v, u)
  {
    if forall u, v :: u in users && v in users ==> !Extends(v, u) {
      forall j: Key, k: Key | Of(j, users) && Of(k, users) && KeyText(j) == KeyText(k) ensures j == k {
        SameText(j, k);
      }
    } else {
      var u, v :| u in users && v in users && Extends(v, u);
      ExtensionCollides(v, u);
      var n, m :| KeyText(Account(u, n)) == KeyText(Account(v, m)) && v != u;
      assert Of(Account(u, n), users) && Of(Account(v, m), users);
    }
  }

  // ---- Addresses a user may register ----

  lemma {:induction false} LabelsShort(labels: seq<string>, k: nat)
    requires k < |labels|
    ensures |labels[k]| <= |VerifyEmail.Join(labels)|
  {
    if |labels| > 1 && k < |labels| - 1 {
      LabelsShort(labels[..|labels| - 1], k);
    }
  }

  lemma StemIsLabel()
    ensures VerifyEmail.IsLabel("account") && VerifyEmail.AllLetters("account")
  {
  }

  lemma DomainExtends(d: string)
    requires VerifyEmail.IsDomain(d) && |d| <= 60
    ensures VerifyEmail.IsDomain(d + STEM)
  {
    var labels :| VerifyEmail.AreLabels(labels) && d == VerifyEmail.Join(labels);
    var more := labels + ["account"];
    StemIsLabel();
    forall k | 0 <= k < |more|
      ensures VerifyEmail.IsLabel(more[k]) && |more[k]| <= VerifyEmail.LabelMax(k, |more|)
    {
      if k < |labels| {
        LabelsShort(labels, k);
      }
    }
    assert more[..|labels|] == labels;
    assert d + STEM == d + "." + "account";
    assert VerifyEmail.AreLabels(more) && d + STEM == VerifyEmail.Join(more);
  }

  /** Every short address extends to another valid one, so registered users can collide. */
  lemma AddressesExtend(e: string)
    requires VerifyEmail.IsEmail(e) && |e| <= 60
    ensures VerifyEmail.IsEmail(e + STEM) && Extends(e + STEM, e)
  {
    var local, domain :| VerifyEmail.IsLocal(local) && VerifyEmail.IsDomain(domain) && e == local + "@" + domain;
    DomainExtends(domain);
    assert e + STEM == local + "@" + (domain + STEM);
  }
}
