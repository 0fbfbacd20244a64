/**
  The device flow (internal/device/handler.go).  A code is one record under two indexes, by device
  code and by user code.  The user decides through one index, the device polls through the other.

  PollToken takes the lock to fetch the record, releases it, reads the record's flags, calls the
  issuer, and takes the lock again to delete.  So there are two models: the handler with one call
  at a time, and the machine in which the steps of any number of polls interleave.
*/
module Device {
  const TEN_MINUTES: int := 600_000_000_000

  datatype Code = Code(
    userCode: string, clientId: string, scopes: seq<string>, expiresAt: int, approved: bool, denied: bool)

  /** Device code -> record, and user code -> the device code of the same record. */
  datatype Store = Store(codes: map<string, Code>, byUser: map<string, string>)

  /** Both indexes hold the same records. */
  ghost predicate SameRecords(s: Store) {
    && (forall dc | dc in s.codes :: s.codes[dc].userCode in s.byUser && s.byUser[s.codes[dc].userCode] == dc)
    && (forall uc | uc in s.byUser :: s.byUser[uc] in s.codes && s.codes[s.byUser[uc]].userCode == uc)
  }

  function Requested(s: Store, dc: string, uc: string, clientId: string, scopes: seq<string>, now: int): Store {
    if clientId == "" then s
    else Store(s.codes[dc := Code(uc, clientId, scopes, now + TEN_MINUTES, false, false)], s.byUser[uc := dc])
  }

  function Decision(c: Code, deny: bool): Code {
    if deny then c.(denied := true) else c.(approved := true)
  }

  function Decided(s: Store, uc: string, deny: bool): Store {
    if uc in s.byUser && s.byUser[uc] in s.codes
    then s.(codes := s.codes[s.byUser[uc] := Decision(s.codes[s.byUser[uc]], deny)])
    else s
  }

  datatype PollResult =
    ExpiredToken | AccessDenied | AuthorizationPending | Issue(clientId: string, scopes: seq<string>)

  function Verdict(c: Code, now: int): PollResult {
    if now > c.expiresAt then ExpiredToken
    else if c.denied then AccessDenied
    else if !c.approved then AuthorizationPending
    else Issue(c.clientId, c.scopes)
  }

  function Deleted(s: Store, dc: string, uc: string): Store {
    Store(s.codes - {dc}, s.byUser - {uc})
  }

  /** A poll with no other handler in between. */
  function Polled(s: Store, dc: string, now: int): (Store, PollResult) {
    if dc !in s.codes then (s, ExpiredToken)
    else
      var r := Verdict(s.codes[dc], now);
      (if r.Issue? then Deleted(s, dc, s.codes[dc].userCode) else s, r)
  }

  function ExpiredCodes(s: Store, now: int): set<string> {
    set dc | dc in s.codes && now > s.codes[dc].expiresAt
  }

  function Cleaned(s: Store, now: int): Store {
    Store(map dc | dc in s.codes && dc !in ExpiredCodes(s, now) :: s.codes[dc],
          s.byUser - (set dc | dc in ExpiredCodes(s, now) :: s.codes[dc].userCode))
  }

  /** Of the user codes, cleanup keeps exactly those whose device code it keeps. */
  lemma CleanedUserCodes(s: Store, now: int)
    requires SameRecords(s)
    ensures Cleaned(s, now).byUser == map uc | uc in s.byUser && s.byUser[uc] !in ExpiredCodes(s, now) :: s.byUser[uc]
  {
    var dropped := set dc | dc in ExpiredCodes(s, now) :: s.codes[dc].userCode;
    forall uc | uc in s.byUser ensures uc in dropped <==> s.byUser[uc] in ExpiredCodes(s, now) {
      assert s.codes[s.byUser[uc]].userCode == uc;
    }
  }

  /** Removing the expired codes never changes what a poll answers from then on. */
  lemma CleanupIsInvisible(s: Store, swept: int, dc: string, now: int)
    requires swept <= now
    ensures Polled(Cleaned(s, swept), dc, now).1 == Polled(s, dc, now).1
  {
  }

  lemma RequestKeepsSameRecords(s: Store, dc: string, uc: string, clientId: string, scopes: seq<string>, now: int)
    requires SameRecords(s) && dc !in s.codes && uc !in s.byUser
    ensures SameRecords(Requested(s, dc, uc, clientId, scopes, now))
  {
  }

  lemma OthersKeepSameRecords(s: Store, dc: string, uc: string, deny: bool, now: int)
    requires SameRecords(s)
    ensures SameRecords(Decided(s, uc, deny)) && SameRecords(Cleaned(s, now))
    ensures dc in s.codes ==> SameRecords(Deleted(s, dc, s.codes[dc].userCode))
    ensures SameRecords(Polled(s, dc, now).0)
  {
  }

  // ----- the handler: one record, two indexes, flags changed in place -----

  class CodeRecord {
    const deviceCode: string
    const userCode: string
    const clientId: string
    const scopes: seq<string>
    const expiresAt: int
    var approved: bool
    var denied: bool

    constructor (deviceCode: string, userCode: string, clientId: string, scopes: seq<string>, expiresAt: int)
      ensures this.deviceCode == deviceCode && View() == Code(userCode, clientId, scopes, expiresAt, false, false)
    {
      this.deviceCode, this.userCode, this.clientId := deviceCode, userCode, clientId;
      this.scopes, this.expiresAt := scopes, expiresAt;
      approved, denied := false, false;
    }

    function View(): Code
      reads this
    {
      Code(userCode, clientId, scopes, expiresAt, approved, denied)
    }
  }

  class Handler {
    var codes: map<string, CodeRecord>
    var byUser: map<string, CodeRecord>

    /** The two maps hold the very same objects, each under its own two names. */
    ghost predicate Valid()
      reads this
    {
      && (forall dc | dc in codes ::
            codes[dc].deviceCode == dc && codes[dc].userCode in byUser && byUser[codes[dc].userCode] == codes[dc])
      && (forall uc | uc in byUser ::
            byUser[uc].userCode == uc && byUser[uc].deviceCode in codes && codes[byUser[uc].deviceCode] == byUser[uc])
    }

    ghost function View(): Store
      reads this, codes.Values
    {
      Store(Codes(), Users())
    }

    ghost function Codes(): map<string, Code>
      reads this`codes, codes.Values
    {
      map dc | dc in codes :: codes[dc].View()
    }

    ghost function Users(): map<string, string>
      reads this`byUser
    {
      map uc | uc in byUser :: byUser[uc].deviceCode
    }

    constructor ()
      ensures Valid() && View() == Store(map[], map[])
    {
      codes, byUser := map[], map[];
    }

    method RequestCode(dc: string, uc: string, clientId: string, scopes: seq<string>, now: int) returns (ok: bool)
      requires Valid() && dc !in codes && uc !in byUser
      modifies this
      ensures Valid() && View() == Requested(old(View()), dc, uc, clientId, scopes, now)
      ensures ok <==> clientId != ""
    {
      if clientId == "" {
        return false;
      }
      var c := new CodeRecord(dc, uc, clientId, scopes, now + TEN_MINUTES);
      Place(c);
      return true;
    }

    /** A record enters both indexes. */
    method Place(c: CodeRecord)
      requires Valid() && c.deviceCode !in codes && c.userCode !in byUser
      modifies this
      ensures Valid()
      ensures View() == Store(old(View()).codes[c.deviceCode := c.View()],
                              old(View()).byUser[c.userCode := c.deviceCode])
    {
      PlaceByDevice(c);
      PlaceByUser(c);
    }

    method PlaceByDevice(c: CodeRecord)
      modifies this`codes
      ensures codes == old(codes)[c.deviceCode := c]
      ensures Codes() == old(Codes())[c.deviceCode := c.View()]
    {
      codes := codes[c.deviceCode := c];
    }

    method PlaceByUser(c: CodeRecord)
      modifies this`byUser
      ensures byUser == old(byUser)[c.userCode := c]
      ensures Users() == old(Users())[c.userCode := c.deviceCode]
    {
      byUser := byUser[c.userCode := c];
    }

    /** The decision is written through the user-code index and seen through the device-code index. */
    method Approve(uc: string, action: string) returns (found: bool)
      requires Valid()
      modifies byUser.Values
      ensures Valid() && View() == Decided(old(View()), uc, action == "deny")
      ensures found <==> uc in old(View()).byUser
    {
      found := uc in byUser;
      if found {
        var c := byUser[uc];
        assert codes[c.deviceCode] == c;
        if action == "deny" {
          c.denied := true;
        } else {
          c.approved := true;
        }
      }
    }

    method PollToken(dc: string, now: int) returns (r: PollResult)
      requires Valid()
      modifies this
      ensures Valid() && View() == Polled(old(View()), dc, now).0 && r == Polled(old(View()), dc, now).1
    {
      if dc !in codes || now > codes[dc].expiresAt {
        return ExpiredToken;
      }
      var c := codes[dc];
      if c.denied {
        return AccessDenied;
      }
      if !c.approved {
        return AuthorizationPending;
      }
      r := Issue(c.clientId, c.scopes);
      codes := codes - {dc};
      byUser := byUser - {c.userCode};
    }

    method Remove(dc: string)
      requires Valid() && dc in codes
      modifies this
      ensures Valid()
      ensures codes == old(codes) - {dc} && byUser == old(byUser) - {old(codes)[dc].userCode}
    {
      byUser := byUser - {codes[dc].userCode};
      codes := codes - {dc};
    }

    method Cleanup(now: int)
      requires Valid()
      modifies this
      ensures Valid() && View() == Cleaned(old(View()), now)
    {
      ghost var before := View();
      CleanedUserCodes(before, now);
      Sweep(now);
      assert View().codes == Cleaned(before, now).codes;
      assert View().byUser == Cleaned(before, now).byUser;
    }

    method Sweep(now: int)
      requires Valid()
      modifies this
      ensures Valid()
      ensures codes == map dc | dc in old(codes) && now <= old(codes)[dc].expiresAt :: old(codes)[dc]
      ensures byUser == map uc | uc in old(byUser) && now <= old(byUser)[uc].expiresAt :: old(byUser)[uc]
    {
      var found := codes;
      var todo := found.Keys;
      while todo != {}
        invariant Valid()
        invariant todo <= codes.Keys <= found.Keys
        invariant forall dc | dc in codes :: codes[dc] == found[dc]
        invariant forall dc | dc in found :: dc in codes <==> dc in todo || now <= found[dc].expiresAt
        invariant forall uc | uc in byUser :: uc in old(byUser) && byUser[uc] == old(byUser)[uc]
        invariant forall uc | uc in old(byUser) :: uc in byUser <==> old(byUser)[uc].deviceCode in codes
      {
        var dc :| dc in todo;
        if now > codes[dc].expiresAt {
          Remove(dc);
        }
        todo := todo - {dc};
      }
    }
  }
}
