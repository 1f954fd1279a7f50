/** The in-memory activation code store: a dictionary from a user id to that
    user's live code, and a code index from each code value to its owner
    (src/persistances/repositories/implementations/memory/activation_code_repository.py). */
module ActivationCodeRepositories {
  import opened Wrappers
  import opened Models
  import opened Codes

  /** The code expires one minute after its creation. */
  predicate HasDefaultExpiry(c: ActivationCode)
  {
    c.expiresAt == Some(c.createdAt + CodeTtl)
  }

  /** Every code is stored under its owner's id and expires one minute after
      its creation. */
  ghost predicate WellFormedCodes(codes: map<UserId, ActivationCode>)
  {
    forall u :: u in codes ==>
      codes[u].userId == u && HasDefaultExpiry(codes[u])
  }

  /** The code index is exactly the inverse of the codes' value field. */
  ghost predicate IndexInverts(codes: map<UserId, ActivationCode>, index: map<string, UserId>)
  {
    (forall u :: u in codes ==> codes[u].code in index && index[codes[u].code] == u)
    && (forall c :: c in index ==> index[c] in codes && codes[index[c]].code == c)
  }

  /** Every code value in the index is four decimal digits. */
  ghost predicate DigitCodes(index: map<string, UserId>)
  {
    forall c :: c in index ==> IsCode(c)
  }

  /** The store invariant: well-formed four-digit codes and an index that
      inverts them, so each user has at most one live code and no two users
      hold the same code value. */
  ghost predicate CodeIndexInverse(codes: map<UserId, ActivationCode>, index: map<string, UserId>)
  {
    WellFormedCodes(codes) && DigitCodes(index) && IndexInverts(codes, index)
  }

  /** The code values held by users other than `userId`. */
  ghost function OthersCodes(index: map<string, UserId>, userId: UserId): set<string>
  {
    set c | c in index && index[c] != userId
  }

  /** Removing the code of `u` from both maps keeps them inverse, and leaves
      in the index exactly the codes of the other users. */
  lemma RemoveKeepsInverse(codes: map<UserId, ActivationCode>, index: map<string, UserId>, u: UserId)
    requires CodeIndexInverse(codes, index)
    ensures u in codes ==> CodeIndexInverse(codes - {u}, index - {codes[u].code})
    ensures u in codes ==> (index - {codes[u].code}).Keys == OthersCodes(index, u)
    ensures u !in codes ==> index.Keys == OthersCodes(index, u)
  {
    if u in codes {
      var code := codes[u].code;
      var codes', index' := codes - {u}, index - {code};
      forall v | v in codes'
        ensures codes'[v].code in index' && index'[codes'[v].code] == v
      {
        assert codes[v].code != code;
      }
      forall c | c in index'
        ensures index'[c] in codes' && codes'[index'[c]].code == c
      {
        assert index[c] != u;
      }
      assert index'.Keys == OthersCodes(index, u);
    }
  }

  /** Adding a four-digit code with the default expiry for a user without a
      code, under a value nobody holds, keeps the maps inverse. */
  lemma InsertKeepsInverse(codes: map<UserId, ActivationCode>, index: map<string, UserId>, c: ActivationCode)
    requires CodeIndexInverse(codes, index)
    requires c.userId !in codes && c.code !in index
    requires IsCode(c.code) && HasDefaultExpiry(c)
    ensures CodeIndexInverse(codes[c.userId := c], index[c.code := c.userId])
  {
    InsertKeepsWellFormed(codes, c);
    InsertKeepsInverts(codes, index, c);
  }

  lemma InsertKeepsWellFormed(codes: map<UserId, ActivationCode>, c: ActivationCode)
    requires WellFormedCodes(codes)
    requires IsCode(c.code) && HasDefaultExpiry(c)
    ensures WellFormedCodes(codes[c.userId := c])
  {
    var codes' := codes[c.userId := c];
    forall v | v in codes'
      ensures codes'[v].userId == v && HasDefaultExpiry(codes'[v])
    {
      if v != c.userId {
        assert codes'[v] == codes[v];
      }
    }
  }

  lemma InsertKeepsInverts(codes: map<UserId, ActivationCode>, index: map<string, UserId>, c: ActivationCode)
    requires IndexInverts(codes, index)
    requires c.userId !in codes && c.code !in index
    ensures IndexInverts(codes[c.userId := c], index[c.code := c.userId])
  {
    var codes', index' := codes[c.userId := c], index[c.code := c.userId];
    forall v | v in codes'
      ensures codes'[v].code in index' && index'[codes'[v].code] == v
    {
      if v != c.userId {
        assert codes[v].code != c.code;
      }
    }
    forall k | k in index'
      ensures index'[k] in codes' && codes'[index'[k]].code == k
    {
      if k != c.code {
        assert index[k] != c.userId;
      }
    }
  }

  /** The position of the first draw outside `taken`. The draws stand for the
      successive results of the random generator. */
  function FirstFree(draws: seq<string>, taken: set<string>): (k: nat)
    requires exists i :: 0 <= i < |draws| && draws[i] !in taken
    ensures k < |draws| && draws[k] !in taken
    ensures forall j :: 0 <= j < k ==> draws[j] in taken
  {
    if draws[0] !in taken then 0
    else
      assert exists i :: 0 <= i < |draws[1..]| && draws[1..][i] !in taken by {
        var i :| 0 <= i < |draws| && draws[i] !in taken;
        assert draws[1..][i - 1] == draws[i];
      }
      var k := 1 + FirstFree(draws[1..], taken);
      assert forall j :: 1 <= j < k ==> draws[j] == draws[1..][j - 1];
      k
  }

  /** The codes still valid at `now`. */
  function Unexpired(codes: map<UserId, ActivationCode>, now: Time): map<UserId, ActivationCode>
  {
    map u | u in codes && !IsExpired(codes[u], now) :: codes[u]
  }

  /** The owners of the codes expired at `now`. */
  ghost function ExpiredOwners(codes: map<UserId, ActivationCode>, now: Time): set<UserId>
  {
    set u | u in codes && IsExpired(codes[u], now)
  }

  /** A cleanup splits the codes in two: those it keeps and those it removes,
      and the two counts add up to the number of codes. */
  lemma CleanupPartition(codes: map<UserId, ActivationCode>, now: Time)
    ensures Unexpired(codes, now).Keys + ExpiredOwners(codes, now) == codes.Keys
    ensures Unexpired(codes, now).Keys * ExpiredOwners(codes, now) == {}
    ensures |Unexpired(codes, now)| + |ExpiredOwners(codes, now)| == |codes|
  {
    var kept, gone := Unexpired(codes, now).Keys, ExpiredOwners(codes, now);
    assert kept + gone == codes.Keys;
    assert |kept + gone| == |kept| + |gone| - |kept * gone|;
  }

  /** Right after a cleanup at `now`, nothing is left to clean up at `now`. */
  lemma CleanupAgainRemovesNothing(codes: map<UserId, ActivationCode>, now: Time)
    ensures ExpiredOwners(Unexpired(codes, now), now) == {}
    ensures Unexpired(Unexpired(codes, now), now) == Unexpired(codes, now)
  {
  }

  /** A later cleanup removes at least what an earlier one would. */
  lemma CleanupLaterRemovesMore(codes: map<UserId, ActivationCode>, now: Time, later: Time)
    requires now <= later
    ensures ExpiredOwners(codes, now) <= ExpiredOwners(codes, later)
    ensures Unexpired(codes, later).Keys <= Unexpired(codes, now).Keys
  {
    forall u | u in ExpiredOwners(codes, now)
      ensures u in ExpiredOwners(codes, later)
    {
      ExpiryIsMonotone(codes[u], now, later);
    }
  }

  lemma RemoveOneMore(m: map<UserId, ActivationCode>, gone: set<UserId>, u: UserId)
    ensures (m - gone) - {u} == m - (gone + {u})
    ensures u !in m - gone ==> m - gone == m - (gone + {u})
  {
  }

  /** Keeping the unexpired codes is removing the expired ones. */
  lemma UnexpiredIsRemoval(codes: map<UserId, ActivationCode>, now: Time)
    ensures Unexpired(codes, now) == codes - ExpiredOwners(codes, now)
  {
  }

  lemma ReplaceAfterRemove(m: map<UserId, ActivationCode>, u: UserId, c: ActivationCode)
    ensures (m - {u})[u := c] == m[u := c]
  {
  }

  lemma UpdateThenRemove(m: map<UserId, ActivationCode>, k: UserId, v: ActivationCode)
    ensures m[k := v] - {k} == m - {k}
  {
  }

  /** The users a sequence names. */
  ghost function Elements(ids: seq<UserId>): set<UserId>
  {
    if ids == [] then {} else Elements(ids[..|ids| - 1]) + {ids[|ids| - 1]}
  }

  lemma ElementsSnoc(ids: seq<UserId>, j: nat)
    requires j < |ids|
    ensures Elements(ids[..j + 1]) == Elements(ids[..j]) + {ids[j]}
  {
    assert ids[..j + 1][..j] == ids[..j];
  }

  lemma {:induction false} ElementsAre(ids: seq<UserId>)
    ensures forall u :: u in Elements(ids) <==> u in ids
  {
    if ids != [] {
      var init := ids[..|ids| - 1];
      ElementsAre(init);
      assert ids == init + [ids[|ids| - 1]];
    }
  }

  class InMemoryActivationCodeRepository {
    /** The codes dictionary: user id to that user's live code. */
    var codes: map<UserId, ActivationCode>
    /** The code index: code value to the id of its owner. */
    var codeIndex: map<string, UserId>

    ghost predicate Valid()
      reads this
    {
      CodeIndexInverse(codes, codeIndex)
    }

    constructor()
      ensures Valid()
      ensures codes == map[] && codeIndex == map[]
    {
      codes := map[];
      codeIndex := map[];
    }

    /** Some draw is a code no other user holds, so the generation loop of
        `Create` stops. */
    ghost predicate CanDraw(userId: UserId, draws: seq<string>)
      reads this
    {
      exists i :: 0 <= i < |draws| && draws[i] !in OthersCodes(codeIndex, userId)
    }

    /** A code that no other user holds exists exactly while fewer than 10000
        codes are held by other users: past that, the generation loop of
        `Create` cannot stop. */
    lemma FreeCodeExistsIffRoom(userId: UserId)
      requires Valid()
      ensures (exists s :: IsCode(s) && s !in OthersCodes(codeIndex, userId))
          <==> |OthersCodes(codeIndex, userId)| < CodeSpace
    {
      FreeCodeExistsIff(OthersCodes(codeIndex, userId));
    }

    /** The live code of `userId`. */
    function GetByUserId(userId: UserId): (r: Option<ActivationCode>)
      requires Valid()
      reads this
      ensures r.Some? <==> userId in codes
      ensures r.Some? ==> r.value == codes[userId] && r.value.userId == userId
    {
      if userId in codes then Some(codes[userId]) else None
    }

    /** The live code whose value is `code`. An empty owner id in the index
        counts as no code, as the index value is tested for truth before the
        lookup. */
    function GetByCode(code: string): (r: Option<ActivationCode>)
      requires Valid()
      reads this
      ensures r.Some? ==> r.value.code == code && r.value.userId in codes && codes[r.value.userId] == r.value
      ensures r.None? <==> !exists u :: u in codes && u != "" && codes[u].code == code
    {
      if code in codeIndex && codeIndex[code] != "" then Some(codes[codeIndex[code]]) else None
    }

    /** Removes the code of `userId` and its index entry; false, changing
        nothing, when the user holds no code. */
    method Delete(userId: UserId) returns (r: bool)
      requires Valid()
      modifies this
      ensures Valid()
      ensures r <==> userId in old(codes)
      ensures !r ==> unchanged(this)
      ensures r ==> codes == old(codes) - {userId} && codeIndex == old(codeIndex) - {old(codes)[userId].code}
      ensures GetByUserId(userId).None?
      ensures codeIndex.Keys == OthersCodes(old(codeIndex), userId)
    {
      RemoveKeepsInverse(codes, codeIndex, userId);
      if userId !in codes {
        return false;
      }
      var previous := codes[userId];
      codeIndex := codeIndex - {previous.code};
      codes := codes - {userId};
      r := true;
    }

    /** Replaces the code of `userId` by a fresh one: the previous code is
        deleted, then draws are taken until one is not held by another user,
        and that draw becomes the new code, expiring one minute after `now`. */
    method Create(userId: UserId, now: Time, draws: seq<string>) returns (c: ActivationCode)
      requires Valid()
      requires forall i :: 0 <= i < |draws| ==> IsCode(draws[i])
      requires CanDraw(userId, draws)
      modifies this
      ensures Valid()
      ensures c == NewActivationCode(userId, draws[FirstFree(draws, OthersCodes(old(codeIndex), userId))], now, None)
      ensures c.expiresAt == Some(now + CodeTtl)
      ensures codes == old(codes)[userId := c]
      ensures codeIndex ==
        (if userId in old(codes) then old(codeIndex) - {old(codes)[userId].code} else old(codeIndex))[c.code := userId]
      ensures IsCode(c.code) && c.code !in OthersCodes(old(codeIndex), userId)
      ensures forall u :: u in codes && u != userId ==> codes[u].code != c.code
      ensures userId in old(codes) && old(codes)[userId].code != c.code ==> GetByCode(old(codes)[userId].code).None?
      ensures GetByUserId(userId) == Some(c)
      ensures userId != "" ==> GetByCode(c.code) == Some(c)
    {
      var hadCode := Delete(userId);
      assert codeIndex.Keys == OthersCodes(old(codeIndex), userId);
      var code := DrawFree(draws);
      c := ActivationCode(userId, code, now, Some(now + CodeTtl));
      Insert(c);
      if hadCode {
        ReplaceAfterRemove(old(codes), userId, c);
      }
    }

    /** Stores `c` for a user without a code, under a value nobody holds: the
        two assignments that end `create`. */
    method Insert(c: ActivationCode)
      requires Valid()
      requires c.userId !in codes && c.code !in codeIndex
      requires IsCode(c.code) && HasDefaultExpiry(c)
      modifies this
      ensures Valid()
      ensures codes == old(codes)[c.userId := c] && codeIndex == old(codeIndex)[c.code := c.userId]
      ensures forall u :: u in codes && u != c.userId ==> codes[u].code != c.code
      ensures GetByUserId(c.userId) == Some(c)
      ensures c.userId != "" ==> GetByCode(c.code) == Some(c)
    {
      InsertKeepsInverse(codes, codeIndex, c);
      codes := codes[c.userId := c];
      codeIndex := codeIndex[c.code := c.userId];
    }

    /** The generation loop of `create`: draws are taken in turn until one is
        not a live code. */
    method DrawFree(draws: seq<string>) returns (code: string)
      requires exists i :: 0 <= i < |draws| && draws[i] !in codeIndex
      ensures code == draws[FirstFree(draws, codeIndex.Keys)]
      ensures code !in codeIndex
    {
      ghost var first := FirstFree(draws, codeIndex.Keys);
      var i := 0;
      code := draws[0];
      while code in codeIndex
        invariant 0 <= i <= first
        invariant code == draws[i]
        decreases first - i
      {
        i := i + 1;
        code := draws[i];
      }
    }

    /** The owners of the codes expired at `now`, each once: the first loop of
        the cleanup, which walks the codes dictionary. */
    method CollectExpired(now: Time) returns (expired: seq<UserId>)
      requires Valid()
      ensures forall u :: u in expired <==> u in codes && IsExpired(codes[u], now)
      ensures |expired| == |ExpiredOwners(codes, now)|
    {
      expired := [];
      ghost var seen: set<UserId> := {};
      var pending := codes.Keys;
      while pending != {}
        invariant pending <= codes.Keys
        invariant forall u :: u in seen <==> u in codes && u !in pending && IsExpired(codes[u], now)
        invariant forall u :: u in expired <==> u in seen
        invariant |expired| == |seen|
        decreases pending
      {
        var u :| u in pending;
        if IsExpired(codes[u], now) {
          expired := expired + [u];
          seen := seen + {u};
        }
        pending := pending - {u};
      }
      assert seen == ExpiredOwners(codes, now);
    }

    /** Deletes the code of each user in `ids`, one after the other. */
    method DeleteAll(ids: seq<UserId>)
      requires Valid()
      modifies this
      ensures Valid()
      ensures codes == old(codes) - Elements(ids)
    {
      for j := 0 to |ids|
        invariant Valid()
        invariant codes == old(codes) - Elements(ids[..j])
      {
        ElementsSnoc(ids, j);
        RemoveOneMore(old(codes), Elements(ids[..j]), ids[j]);
        var deleted := Delete(ids[j]);
      }
      assert ids[..|ids|] == ids;
    }

    /** Removes every code expired at `now` and returns how many it removed.
        The owners are collected first, then their codes are deleted one by
        one. */
    method CleanupExpired(now: Time) returns (removed: nat)
      requires Valid()
      modifies this
      ensures Valid()
      ensures codes == Unexpired(old(codes), now)
      ensures removed == |ExpiredOwners(old(codes), now)|
    {
      var expired := CollectExpired(now);
      DeleteAll(expired);
      ElementsAre(expired);
      assert Elements(expired) == ExpiredOwners(old(codes), now);
      UnexpiredIsRemoval(old(codes), now);
      removed := |expired|;
    }
  }
}
