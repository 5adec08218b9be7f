/** Requests for access, waiting for the owner of the file (nameserver/access_requests.c). */
module AccessRequests {
  import opened Text
  import opened Protocol

  const MAX_REQUESTS := 100

  datatype AccessRequest = AccessRequest(file: string, requester: string, owner: string, access: int, pending: bool)

  type Requests = seq<AccessRequest>

  predicate Pending(r: AccessRequest, file: string, requester: string) {
    r.pending && r.file == file && r.requester == requester
  }

  predicate HasPending(q: Requests, file: string, requester: string) {
    exists i :: 0 <= i < |q| && Pending(q[i], file, requester)
  }

  /** `request_add` as a function. The slots of settled requests are never used again. */
  function AddRequest(q: Requests, file: string, requester: string, owner: string, access: int): (Requests, int) {
    if |q| >= MAX_REQUESTS then (q, ERR_SERVER_ERROR)
    else if HasPending(q, file, requester) then (q, ERR_CONFLICT)
    else (q + [AccessRequest(file, requester, owner, access, true)], ERR_SUCCESS)
  }

  /** The first pending request of the three names, or the length of the list. */
  function FirstMatch(q: Requests, file: string, requester: string, owner: string): (i: nat)
    ensures i <= |q|
    ensures i < |q| ==> Pending(q[i], file, requester) && q[i].owner == owner
    ensures forall l :: 0 <= l < i ==> !(Pending(q[l], file, requester) && q[l].owner == owner)
  {
    if q == [] || (Pending(q[0], file, requester) && q[0].owner == owner) then 0
    else 1 + FirstMatch(q[1..], file, requester, owner)
  }

  /** `request_approve` and `request_deny`: the request is no longer pending. */
  function Settle(q: Requests, file: string, requester: string, owner: string): (Requests, int) {
    var i := FirstMatch(q, file, requester, owner);
    if i < |q| then (q[i := q[i].(pending := false)], ERR_SUCCESS) else (q, ERR_NOT_FOUND)
  }

  /** The requests an owner is shown, at most `max` of them. */
  function PendingFor(q: Requests, owner: string, max: nat): Requests
    decreases |q|
  {
    if q == [] || max == 0 then []
    else if q[0].pending && q[0].owner == owner then [q[0]] + PendingFor(q[1..], owner, max - 1)
    else PendingFor(q[1..], owner, max)
  }

  class RequestTable {
    const slots: array<AccessRequest>
    var count: nat

    ghost predicate Valid()
      reads this
    {
      slots.Length == MAX_REQUESTS && count <= slots.Length
    }

    ghost function Contents(): Requests
      requires Valid()
      reads this, slots
    {
      slots[..count]
    }

    /** `request_table_init`. */
    constructor ()
      ensures Valid() && fresh(slots) && Contents() == []
    {
      slots := new AccessRequest[MAX_REQUESTS](_ => AccessRequest("", "", "", 0, false));
      count := 0;
    }

    /** `request_add`. */
    method Add(file: string, requester: string, owner: string, access: int) returns (code: int)
      requires Valid()
      modifies this, slots
      ensures Valid() && (Contents(), code) == AddRequest(old(Contents()), file, requester, owner, access)
    {
      if count >= MAX_REQUESTS {
        return ERR_SERVER_ERROR;
      }
      var i := 0;
      while i < count
        invariant 0 <= i <= count
        invariant forall l :: 0 <= l < i ==> !Pending(slots[l], file, requester)
      {
        if Pending(slots[i], file, requester) {
          assert Pending(Contents()[i], file, requester);
          return ERR_CONFLICT;
        }
        i := i + 1;
      }
      assert !HasPending(Contents(), file, requester);
      slots[count] := AccessRequest(file, requester, owner, access, true);
      count := count + 1;
      assert Contents() == old(Contents()) + [slots[count - 1]];
      return ERR_SUCCESS;
    }

    /** `request_approve`, and `request_deny`, which is the same scan. */
    method SettleRequest(file: string, requester: string, owner: string) returns (code: int)
      requires Valid()
      modifies slots
      ensures Valid() && (Contents(), code) == Settle(old(Contents()), file, requester, owner)
    {
      ghost var q := Contents();
      var i := 0;
      while i < count
        invariant 0 <= i <= count && Contents() == q
        invariant forall l :: 0 <= l < i ==> !(Pending(slots[l], file, requester) && slots[l].owner == owner)
      {
        if Pending(slots[i], file, requester) && slots[i].owner == owner {
          FirstMatchIs(q, file, requester, owner, i);
          slots[i] := slots[i].(pending := false);
          assert Contents() == q[i := q[i].(pending := false)];
          return ERR_SUCCESS;
        }
        i := i + 1;
      }
      assert forall l :: 0 <= l < |q| ==> q[l] == slots[l];
      return ERR_NOT_FOUND;
    }

    /** `request_get_for_owner`. */
    method GetForOwner(owner: string, max: nat) returns (found: Requests)
      requires Valid()
      ensures found == PendingFor(Contents(), owner, max)
    {
      found := [];
      var i := 0;
      ghost var q := Contents();
      assert q[0..] == q;
      while i < count && |found| < max
        invariant 0 <= i <= count && |found| <= max
        invariant found + PendingFor(q[i..], owner, max - |found|) == PendingFor(q, owner, max)
      {
        assert q[i] == slots[i] && q[i..][1..] == q[i + 1..];
        if slots[i].pending && slots[i].owner == owner {
          found := found + [slots[i]];
        }
        i := i + 1;
      }
      assert PendingFor(q[i..], owner, max - |found|) == [];
    }
  }

  lemma FirstMatchIs(q: Requests, file: string, requester: string, owner: string, i: nat)
    requires i < |q| && Pending(q[i], file, requester) && q[i].owner == owner
    requires forall l :: 0 <= l < i ==> !(Pending(q[l], file, requester) && q[l].owner == owner)
    ensures FirstMatch(q, file, requester, owner) == i
  {}

  /** At most one request per file and requester is pending. */
  predicate OnePending(q: Requests) {
    forall i, j :: 0 <= i < j < |q| && q[i].pending && q[j].pending ==>
      q[i].file != q[j].file || q[i].requester != q[j].requester
  }

  lemma AddKeepsOnePending(q: Requests, file: string, requester: string, owner: string, access: int)
    requires OnePending(q) && |q| <= MAX_REQUESTS
    ensures var q' := AddRequest(q, file, requester, owner, access).0; OnePending(q') && |q'| <= MAX_REQUESTS
  {
    forall i | 0 <= i < |q| && Pending(q[i], file, requester) ensures HasPending(q, file, requester) {}
  }

  lemma SettleKeepsOnePending(q: Requests, file: string, requester: string, owner: string)
    requires OnePending(q)
    ensures OnePending(Settle(q, file, requester, owner).0)
  {}

  /** Settling succeeds exactly when such a request is pending, and then none of that user's is left. */
  lemma SettleConsumes(q: Requests, file: string, requester: string, owner: string)
    requires OnePending(q)
    ensures var (q', code) := Settle(q, file, requester, owner);
            && (code == ERR_SUCCESS <==>
                  exists i :: 0 <= i < |q| && Pending(q[i], file, requester) && q[i].owner == owner)
            && (code == ERR_SUCCESS ==> HasPending(q, file, requester) && !HasPending(q', file, requester))
  {
    var i := FirstMatch(q, file, requester, owner);
    if i < |q| {
      assert Pending(q[i], file, requester);
    }
  }
}
