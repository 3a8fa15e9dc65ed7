/** Public user numbers: repairing them at startup and issuing new ones. */
module UserNumbers {
  import opened Wrappers
  import opened MachineIntegers

  const ADMIN: string := "usr_admin"

  datatype User = User(id: string, number: Option<int64>)

  datatype Error = NoAdmin | Exhausted | NoSequence

  // --- What a repair has to do ---------------------------------------------------------

  /** Something that only renumbering everybody can repair: the administrator is not number one, a number is not positive, or it is taken. */
  predicate BadAt(users: seq<User>, i: nat)
    requires i < |users|
  {
    || (users[i].id == ADMIN && users[i].number != Some(1))
    || (users[i].number.Some? && (users[i].number.value <= 0 || Taken(users[..i], users[i].number.value)))
  }

  predicate Taken(users: seq<User>, n: int64) {
    exists k | 0 <= k < |users| :: users[k].number == Some(n)
  }

  predicate NeedsRebuild(users: seq<User>) {
    exists i | 0 <= i < |users| :: BadAt(users, i)
  }

  predicate HasAdmin(users: seq<User>) {
    exists i | 0 <= i < |users| :: users[i].id == ADMIN
  }

  /** The largest positive number. */
  function MaxNumber(users: seq<User>): (max: int64)
    ensures max >= 0
  {
    if users == [] then 0
    else
      var before := MaxNumber(users[..|users| - 1]);
      var last := users[|users| - 1].number;
      if last.Some? && last.value > before then last.value else before
  }

  function Missing(users: seq<User>): (n: nat)
    ensures n <= |users|
  {
    if users == [] then 0 else Missing(users[..|users| - 1]) + if users[|users| - 1].number.None? then 1 else 0
  }

  /** Everybody in order, from one. */
  predicate Renumbered(users: seq<User>, after: seq<User>) {
    && |after| == |users|
    && forall i | 0 <= i < |users| :: after[i].id == users[i].id && after[i].number.Some? && after[i].number.value as int == i + 1
  }

  /** Who has a number keeps it; the others get the next ones, in order. */
  predicate FilledIn(users: seq<User>, after: seq<User>) {
    && |after| == |users|
    && forall i | 0 <= i < |users| ::
         && after[i].id == users[i].id && after[i].number.Some?
         && if users[i].number.Some? then after[i] == users[i]
            else after[i].number.value as int == MaxNumber(users) as int + Missing(users[..i]) + 1
  }

  predicate OutOfRange(users: seq<User>) {
    if NeedsRebuild(users) then MaxNumber(users) as int > MAX_INT64 as int - 2 * |users|
    else MaxNumber(users) as int + Missing(users) > MAX_INT64 as int
  }

  // --- The order of the rows -----------------------------------------------------------

  /** The rows as the query returns them: the administrator first, every identity once. */
  predicate Ordered(users: seq<User>) {
    && (forall i, k | 0 <= i < k < |users| :: users[i].id != users[k].id)
    && (forall i | 0 < i < |users| :: users[i].id != ADMIN)
    && |users| < 0x1000_0000_0000_0000
  }

  // --- The repair ----------------------------------------------------------------------

  /** Gives a row a number that no other row holds at that moment. */
  method Update(users: seq<User>, i: nat, n: int64) returns (after: seq<User>)
    requires i < |users| && forall k | 0 <= k < |users| && k != i :: users[k].number != Some(n)
    ensures after == users[i := users[i].(number := Some(n))]
  {
    after := users[i := users[i].(number := Some(n))];
  }

  lemma MaxStep(users: seq<User>, i: nat)
    requires i < |users|
    ensures users[..i + 1][..i] == users[..i] && users[..i + 1][i] == users[i]
    ensures var before := MaxNumber(users[..i]);
            MaxNumber(users[..i + 1]) == if users[i].number.Some? && users[i].number.value > before then users[i].number.value else before
    ensures Missing(users[..i + 1]) == Missing(users[..i]) + if users[i].number.None? then 1 else 0
  {
    assert users[..i + 1][..i] == users[..i];
  }

  lemma {:induction false} MaxIsMax(users: seq<User>)
    ensures forall i | 0 <= i < |users| :: users[i].number.Some? ==> users[i].number.value <= MaxNumber(users)
  {
    if users != [] {
      var last := |users| - 1;
      MaxIsMax(users[..last]);
      assert forall i | 0 <= i < last :: users[..last][i] == users[i];
    }
  }

  /** Looks through all rows. */
  method Scan(users: seq<User>) returns (adminFound: bool, needsRebuild: bool, maxNumber: int64)
    ensures adminFound == HasAdmin(users) && needsRebuild == NeedsRebuild(users) && maxNumber == MaxNumber(users)
  {
    hide MaxNumber, Taken;
    adminFound, needsRebuild, maxNumber := false, false, 0;
    var seen: set<int64> := {};
    var i := 0;
    EmptyMax(users);
    while i < |users|
      invariant 0 <= i <= |users|
      invariant adminFound == exists k | 0 <= k < i :: users[k].id == ADMIN
      invariant needsRebuild == exists k | 0 <= k < i :: BadAt(users, k)
      invariant forall n: int64 :: n in seen <==> n > 0 && Taken(users[..i], n)
      invariant maxNumber == MaxNumber(users[..i]) && maxNumber >= 0
    {
      var item := users[i];
      MaxStep(users, i);
      TakenStep(users, i);
      adminFound := adminFound || item.id == ADMIN;
      var bad := item.id == ADMIN && item.number != Some(1);
      if item.number.Some? {
        if item.number.value <= 0 {
          bad := true;
        } else {
          bad := bad || item.number.value in seen;
          seen := seen + {item.number.value};
          if item.number.value > maxNumber {
            maxNumber := item.number.value;
          }
        }
      }
      assert bad == BadAt(users, i);
      needsRebuild := needsRebuild || bad;
      i := i + 1;
    }
    assert users[..i] == users;
  }

  lemma EmptyMax(users: seq<User>)
    ensures MaxNumber(users[..0]) == 0 && forall n :: !Taken(users[..0], n)
  {
  }

  lemma TakenStep(users: seq<User>, i: nat)
    requires i < |users|
    ensures forall n :: Taken(users[..i + 1], n) <==> Taken(users[..i], n) || users[i].number == Some(n)
  {
    forall n
      ensures Taken(users[..i + 1], n) <==> Taken(users[..i], n) || users[i].number == Some(n)
    {
      assert forall k | 0 <= k < i :: users[..i + 1][k] == users[..i][k];
      assert users[..i + 1][i] == users[i];
    }
  }

  /** Moves everybody through an unused range and then to the first numbers. */
  method Rebuild(users: seq<User>, maxNumber: int64) returns (after: seq<User>)
    requires Ordered(users) && users != [] && maxNumber == MaxNumber(users) && maxNumber as int <= MAX_INT64 as int - 2 * |users|
    ensures Renumbered(users, after)
  {
    MaxIsMax(users);
    var size := |users| as int64;
    var start := maxNumber + size + 1;
    after := users;
    var i: int64 := 0;
    while i < size
      invariant 0 <= i <= size && |after| == |users|
      invariant forall k | 0 <= k < |users| :: after[k].id == users[k].id
      invariant forall k | 0 <= k < |users| :: if k < i as int then after[k].number == Some(start + k as int64) else after[k] == users[k]
    {
      after := Update(after, i as nat, start + i);
      i := i + 1;
    }
    i := 0;
    while i < size
      invariant 0 <= i <= size && |after| == |users|
      invariant forall k | 0 <= k < |users| :: after[k].id == users[k].id
      invariant forall k | 0 <= k < |users| :: after[k].number == if k < i as int then Some(k as int64 + 1) else Some(start + k as int64)
    {
      after := Update(after, i as nat, i + 1);
      i := i + 1;
    }
  }

  /** Gives the next numbers to the rows without one. */
  method FillMissing(users: seq<User>, max: int64) returns (r: Result<seq<User>, Error>)
    requires max == MaxNumber(users)
    ensures r == Failure(Exhausted) <==> max as int + Missing(users) > MAX_INT64 as int
    ensures r.Failure? ==> r == Failure(Exhausted)
    ensures r.Success? ==> FilledIn(users, r.value)
  {
    hide MaxNumber, Missing;
    MaxIsMax(users);
    var after, maxNumber := users, max;
    var i := 0;
    NoneMissing(users);
    while i < |users|
      invariant 0 <= i <= |users| == |after|
      invariant maxNumber as int == max as int + Missing(users[..i])
      invariant forall k | i <= k < |users| :: after[k] == users[k]
      invariant forall k | 0 <= k < i ::
        && after[k].id == users[k].id && after[k].number.Some? && after[k].number.value <= maxNumber
        && if users[k].number.Some? then after[k] == users[k] else after[k].number.value as int == max as int + Missing(users[..k]) + 1
    {
      MaxStep(users, i);
      MissingGrows(users, i);
      if users[i].number.None? {
        if maxNumber == MAX_INT64 {
          return Failure(Exhausted);
        }
        maxNumber := maxNumber + 1;
        after := Update(after, i, maxNumber);
      }
      i := i + 1;
    }
    assert users[..i] == users;
    r := Success(after);
  }

  lemma NoneMissing(users: seq<User>)
    ensures Missing(users[..0]) == 0 && MaxNumber(users) >= 0
  {
  }

  lemma {:induction false} MissingGrows(users: seq<User>, i: nat)
    requires i < |users|
    ensures Missing(users[..i + 1]) <= Missing(users)
    decreases |users| - i
  {
    if i + 1 == |users| {
      assert users[..i + 1] == users;
    } else {
      MissingGrows(users, i + 1);
      MaxStep(users, i + 1);
    }
  }

  /** Repairs all numbers, or reports why it cannot and changes nothing. */
  method BackfillUserNumbers(users: seq<User>) returns (r: Result<seq<User>, Error>)
    requires Ordered(users)
    ensures r == Failure(NoAdmin) <==> !HasAdmin(users)
    ensures r == Failure(Exhausted) <==> HasAdmin(users) && OutOfRange(users)
    ensures r.Failure? ==> r == Failure(NoAdmin) || r == Failure(Exhausted)
    ensures r.Success? ==> if NeedsRebuild(users) then Renumbered(users, r.value) else FilledIn(users, r.value)
  {
    hide MaxNumber, Missing, NeedsRebuild;
    var adminFound, needsRebuild, maxNumber := Scan(users);
    if !adminFound {
      return Failure(NoAdmin);
    }
    if needsRebuild {
      NoneMissing(users);
      if maxNumber > MAX_INT64 - 2 * (|users| as int64) {
        return Failure(Exhausted);
      }
      var after := Rebuild(users, maxNumber);
      return Success(after);
    }
    r := FillMissing(users, maxNumber);
  }

  // --- What a repair achieves ----------------------------------------------------------

  /** Every number is positive and nobody shares one; the administrator is number one. */
  predicate Good(users: seq<User>) {
    && (forall i | 0 <= i < |users| :: users[i].number.Some? && users[i].number.value > 0)
    && (forall i, k | 0 <= i < k < |users| :: users[i].number != users[k].number)
    && (forall i | 0 <= i < |users| :: users[i].id == ADMIN ==> users[i].number == Some(1))
  }

  lemma {:induction false} MissingIncreases(users: seq<User>, i: nat, k: nat)
    requires i < k <= |users| && users[i].number.None?
    ensures Missing(users[..i]) < Missing(users[..k])
    decreases k
  {
    MaxStep(users, k - 1);
    if i < k - 1 {
      MissingIncreases(users, i, k - 1);
    }
  }

  /** After a repair, whichever it was, all numbers are good; and unless everybody had to be renumbered, nobody lost a number. */
  lemma RepairIsGood(users: seq<User>, after: seq<User>)
    requires Ordered(users)
    requires if NeedsRebuild(users) then Renumbered(users, after) else FilledIn(users, after)
    ensures Good(after) && Ordered(after)
    ensures !NeedsRebuild(users) ==> forall i | 0 <= i < |users| :: users[i].number.Some? ==> after[i] == users[i]
  {
    hide MaxNumber, Missing;
    if !NeedsRebuild(users) {
      NoneMissing(users);
      MaxIsMax(users);
      forall i | 0 <= i < |users|
        ensures after[i].number.value > 0 && (users[i].id == ADMIN ==> after[i].number == Some(1))
      {
        assert !BadAt(users, i);
      }
      forall i, k | 0 <= i < k < |users|
        ensures after[i].number != after[k].number
      {
        FilledDistinct(users, after, i, k);
      }
    }
  }

  lemma FilledDistinct(users: seq<User>, after: seq<User>, i: nat, k: nat)
    requires i < k < |users| && !NeedsRebuild(users) && FilledIn(users, after)
    ensures after[i].number != after[k].number
  {
    hide MaxNumber, Missing;
    MaxIsMax(users);
    assert !BadAt(users, k);
    if users[i].number.None? && users[k].number.None? {
      MissingIncreases(users, i, k);
    } else if users[i].number.Some? && users[k].number.Some? {
      assert users[..k][i] == users[i];
    }
  }

  lemma {:induction false} NothingMissing(users: seq<User>)
    requires forall i | 0 <= i < |users| :: users[i].number.Some?
    ensures Missing(users) == 0
  {
    if users != [] {
      NothingMissing(users[..|users| - 1]);
    }
  }

  /** Good numbers need no repair: a repair leaves them as they are. */
  lemma GoodIsKept(users: seq<User>, after: seq<User>)
    requires Good(users)
    ensures !NeedsRebuild(users) && !OutOfRange(users)
    ensures FilledIn(users, after) ==> after == users
  {
    hide MaxNumber, Missing;
    NothingMissing(users);
    assert forall i, k | 0 <= k < i < |users| :: users[..i][k] == users[k];
  }

  /** Numbers are positive and distinct as far as there are any, and the administrator has the number one. */
  predicate Sound(users: seq<User>) {
    && (forall i | 0 <= i < |users| :: users[i].number.Some? ==> users[i].number.value > 0)
    && (forall i, k | 0 <= i < k < |users| :: users[i].number.Some? ==> users[i].number != users[k].number)
    && (forall i | 0 <= i < |users| :: users[i].id == "usr_admin" ==> users[i].number == Some(1))
  }

  /** Everybody is renumbered exactly if the numbers that are there are not sound; missing ones are no reason. */
  lemma RebuildExactly(users: seq<User>)
    ensures NeedsRebuild(users) <==> !Sound(users)
  {
    if NeedsRebuild(users) {
      var i :| 0 <= i < |users| && BadAt(users, i);
      if Taken(users[..i], if users[i].number.Some? then users[i].number.value else 0) && users[i].number.Some? {
        var k :| 0 <= k < i && users[..i][k].number == users[i].number;
        assert users[k].number == users[i].number;
      }
    } else {
      forall i | 0 <= i < |users|
        ensures users[i].number.Some? ==> users[i].number.value > 0
        ensures users[i].id == "usr_admin" ==> users[i].number == Some(1)
      {
        assert !BadAt(users, i);
      }
      forall i, k | 0 <= i < k < |users| && users[i].number.Some?
        ensures users[i].number != users[k].number
      {
        assert !BadAt(users, k);
        assert users[..k][i].number == users[i].number;
      }
    }
  }

  /** Sound numbers are kept by a repair; who has none gets one above all of them, in the order of the rows. */
  lemma SoundIsKept(users: seq<User>, after: seq<User>)
    requires Sound(users) && FilledIn(users, after)
    ensures !NeedsRebuild(users)
    ensures forall i | 0 <= i < |users| && users[i].number.Some? :: after[i] == users[i]
    ensures forall i, k | 0 <= i < |users| && users[i].number.None? && 0 <= k < |users| && users[k].number.Some? ::
      after[i].number.value > users[k].number.value
    ensures forall i, k | 0 <= i < k < |users| && users[i].number.None? && users[k].number.None? :: after[i].number.value < after[k].number.value
  {
    hide MaxNumber, Missing, Sound, NeedsRebuild;
    RebuildExactly(users);
    MaxIsMax(users);
    forall i, k | 0 <= i < k < |users| && users[i].number.None? && users[k].number.None?
      ensures after[i].number.value < after[k].number.value
    {
      MissingIncreases(users, i, k);
    }
  }

  // --- Accounts over time --------------------------------------------------------------

  /** The user rows, and the next number to issue once the sequence exists. */
  datatype Accounts = Accounts(users: seq<User>, next: Option<int64>)

  /** A restart repairs the numbers and lifts the sequence above them; it fails at the end of the range. */
  predicate Restarted(a: Accounts, b: Accounts) {
    && (if NeedsRebuild(a.users) then Renumbered(a.users, b.users) else FilledIn(a.users, b.users))
    && MaxNumber(b.users) < MAX_INT64
    && b.next == (if a.next.Some? && a.next.value > MaxNumber(b.users) then a.next else Some(MaxNumber(b.users) + 1))
  }

  /** A new user takes the next number; the row may come anywhere after the administrator's. */
  predicate Created(a: Accounts, b: Accounts, id: string, p: nat, n: int64) {
    && a.next == Some(n) && 0 < n < MAX_INT64 && b.next == Some(n + 1)
    && 0 < p <= |a.users| && b.users == a.users[..p] + [User(id, Some(n))] + a.users[p..]
    && id != ADMIN && forall i | 0 <= i < |a.users| :: a.users[i].id != id
  }

  /** A row other than the administrator's is removed. */
  predicate Removed(a: Accounts, b: Accounts, i: nat) {
    i < |a.users| && a.users[i].id != ADMIN && b.next == a.next && b.users == a.users[..i] + a.users[i + 1..]
  }

  /** Everything issued so far is below the next number, and all rows have issued numbers. */
  predicate Settled(a: Accounts, issued: set<int64>) {
    && Ordered(a.users) && HasAdmin(a.users) && Good(a.users) && a.next.Some? && a.next.value > 0
    && (forall n | n in issued :: n < a.next.value)
    && (forall i | 0 <= i < |a.users| :: a.users[i].number.value in issued)
  }

  function Numbers(users: seq<User>): set<int64> {
    set i | 0 <= i < |users| && users[i].number.Some? :: users[i].number.value
  }

  /** After the first restart everything is settled. */
  lemma FirstRestart(a: Accounts, b: Accounts)
    requires Ordered(a.users) && HasAdmin(a.users) && Restarted(a, b)
    ensures Settled(b, Numbers(b.users))
  {
    hide MaxNumber, NeedsRebuild, Missing;
    RepairIsGood(a.users, b.users);
    MaxIsMax(b.users);
    NoneMissing(b.users);
    var i :| 0 <= i < |a.users| && a.users[i].id == ADMIN;
    assert b.users[i].id == ADMIN;
    forall n | n in Numbers(b.users)
      ensures n < b.next.value
    {
    }
  }

  /** A later restart changes nothing. */
  lemma RestartKeeps(a: Accounts, b: Accounts, issued: set<int64>)
    requires Settled(a, issued) && Restarted(a, b)
    ensures b == a
  {
    hide MaxNumber, NeedsRebuild, Missing;
    GoodIsKept(a.users, b.users);
    MaxIsBelow(a.users, a.next.value);
  }

  lemma {:induction false} MaxIsBelow(users: seq<User>, n: int64)
    requires n > 0 && forall i | 0 <= i < |users| :: users[i].number.Some? ==> users[i].number.value < n
    ensures MaxNumber(users) < n
  {
    if users != [] {
      MaxIsBelow(users[..|users| - 1], n);
    }
  }

  /** The rows with one more among them. */
  lemma InsertedRow(users: seq<User>, p: nat, user: User)
    requires Ordered(users) && HasAdmin(users) && Good(users) && 0 < p <= |users| && |users| + 1 < 0x1000_0000_0000_0000
    requires user.id != ADMIN && forall i | 0 <= i < |users| :: users[i].id != user.id && users[i].number != user.number
    requires user.number.Some? && user.number.value > 0
    ensures var after := users[..p] + [user] + users[p..];
            && HasAdmin(after) && Good(after) && Ordered(after)
            && forall i | 0 <= i < |after| :: after[i] == user || exists k | 0 <= k < |users| :: after[i] == users[k]
  {
    var after := users[..p] + [user] + users[p..];
    forall i | 0 <= i < |after|
      ensures after[i] == if i < p then users[i] else if i == p then user else users[i - 1]
    {
    }
    AdminFirst(users);
    hide Good, Ordered, HasAdmin;
    InsertedOrdered(users, p, user, after);
    InsertedGood(users, p, user, after);
    AdminThere(after);
  }

  lemma AdminFirst(users: seq<User>)
    requires Ordered(users) && HasAdmin(users)
    ensures |users| > 0 && users[0].id == ADMIN
  {
  }

  lemma AdminThere(users: seq<User>)
    requires |users| > 0 && users[0].id == ADMIN
    ensures HasAdmin(users)
  {
  }

  lemma InsertedOrdered(users: seq<User>, p: nat, user: User, after: seq<User>)
    requires Ordered(users) && 0 < p <= |users| && |after| == |users| + 1 < 0x1000_0000_0000_0000
    requires user.id != ADMIN && forall i | 0 <= i < |users| :: users[i].id != user.id
    requires forall i {:trigger after[i]} | 0 <= i < |after| :: after[i] == if i < p then users[i] else if i == p then user else users[i - 1]
    ensures Ordered(after)
  {
    forall i, k | 0 <= i < k < |after|
      ensures after[i].id != after[k].id
    {
    }
  }

  lemma InsertedGood(users: seq<User>, p: nat, user: User, after: seq<User>)
    requires Good(users) && 0 < p <= |users| && |after| == |users| + 1
    requires user.id != ADMIN && forall i | 0 <= i < |users| :: users[i].number != user.number
    requires user.number.Some? && user.number.value > 0
    requires forall i {:trigger after[i]} | 0 <= i < |after| :: after[i] == if i < p then users[i] else if i == p then user else users[i - 1]
    ensures Good(after)
  {
    forall i, k | 0 <= i < k < |after|
      ensures after[i].number != after[k].number
    {
    }
  }

  /** The rows without one of them. */
  lemma RemovedRow(users: seq<User>, p: nat)
    requires Ordered(users) && HasAdmin(users) && Good(users) && 0 < p < |users|
    ensures var after := users[..p] + users[p + 1..];
            && HasAdmin(after) && Good(after) && Ordered(after)
            && forall i | 0 <= i < |after| :: exists k | 0 <= k < |users| :: after[i] == users[k]
  {
    var after := users[..p] + users[p + 1..];
    forall i | 0 <= i < |after|
      ensures after[i] == if i < p then users[i] else users[i + 1]
    {
    }
    AdminFirst(users);
    hide Good, Ordered, HasAdmin;
    RemovedOrdered(users, p, after);
    RemovedGood(users, p, after);
    AdminThere(after);
  }

  lemma RemovedOrdered(users: seq<User>, p: nat, after: seq<User>)
    requires Ordered(users) && 0 < p < |users| && |after| == |users| - 1
    requires forall i {:trigger after[i]} | 0 <= i < |after| :: after[i] == if i < p then users[i] else users[i + 1]
    ensures Ordered(after)
  {
    forall i, k | 0 <= i < k < |after|
      ensures after[i].id != after[k].id
    {
    }
  }

  lemma RemovedGood(users: seq<User>, p: nat, after: seq<User>)
    requires Good(users) && 0 < p < |users| && |after| == |users| - 1
    requires forall i {:trigger after[i]} | 0 <= i < |after| :: after[i] == if i < p then users[i] else users[i + 1]
    ensures Good(after)
  {
    forall i, k | 0 <= i < k < |after|
      ensures after[i].number != after[k].number
    {
    }
  }

  /** A new user gets a number that was never issued before, and everything stays settled. */
  lemma CreateKeeps(a: Accounts, b: Accounts, id: string, p: nat, n: int64, issued: set<int64>)
    requires Settled(a, issued) && Created(a, b, id, p, n) && |b.users| < 0x1000_0000_0000_0000
    ensures n !in issued && Settled(b, issued + {n})
  {
    assert forall i | 0 <= i < |a.users| :: a.users[i].number.Some? && a.users[i].number.value != n;
    hide Good, Ordered, HasAdmin;
    InsertedRow(a.users, p, User(id, Some(n)));
  }

  lemma RemoveKeeps(a: Accounts, b: Accounts, i: nat, issued: set<int64>)
    requires Settled(a, issued) && Removed(a, b, i)
    ensures Settled(b, issued)
  {
    AdminFirst(a.users);
    hide Good, Ordered, HasAdmin;
    RemovedRow(a.users, i);
  }

  datatype Action = Restart | Create(id: string, position: nat, number: int64) | Remove(index: nat)

  predicate Step(a: Accounts, action: Action, b: Accounts) {
    match action
    case Restart => Restarted(a, b)
    case Create(id, p, n) => Created(a, b, id, p, n) && |b.users| < 0x1000_0000_0000_0000
    case Remove(i) => Removed(a, b, i)
  }

  /** A run: each action leads from one state to the next. */
  predicate IsRun(states: seq<Accounts>, actions: seq<Action>) {
    |states| == |actions| + 1 && forall i | 0 <= i < |actions| :: Step(states[i], actions[i], states[i + 1])
  }

  /** All numbers issued in the first k actions, on top of those that were there. */
  function IssuedBy(actions: seq<Action>, before: set<int64>): set<int64> {
    if actions == [] then before
    else
      var last := actions[|actions| - 1];
      IssuedBy(actions[..|actions| - 1], before) + if last.Create? then {last.number} else {}
  }

  /** In every run after the first restart, the next number stays above every number ever issued. */
  lemma {:induction false} RunSettled(states: seq<Accounts>, actions: seq<Action>, before: set<int64>)
    requires IsRun(states, actions) && Settled(states[0], before)
    ensures Settled(states[|actions|], IssuedBy(actions, before))
    decreases |actions|
  {
    hide Settled, Restarted, Created, Removed;
    if actions != [] {
      var last := |actions| - 1;
      RunSettled(states[..last + 1], actions[..last], before);
      var issued := IssuedBy(actions[..last], before);
      assert Step(states[last], actions[last], states[last + 1]);
      match actions[last]
      case Restart =>
        RestartKeeps(states[last], states[last + 1], issued);
        assert IssuedBy(actions, before) == issued;
      case Create(id, p, n) => CreateKeeps(states[last], states[last + 1], id, p, n, issued);
      case Remove(i) =>
        RemoveKeeps(states[last], states[last + 1], i, issued);
        assert IssuedBy(actions, before) == issued;
    }
  }

  /** No number is issued twice, however users come and go and the server restarts. */
  lemma NeverIssuedTwice(states: seq<Accounts>, actions: seq<Action>, before: set<int64>, k: nat)
    requires IsRun(states, actions) && Settled(states[0], before)
    requires k < |actions| && actions[k].Create?
    ensures actions[k].number !in IssuedBy(actions[..k], before)
  {
    hide Settled, Restarted, Created, Removed;
    RunSettled(states[..k + 1], actions[..k], before);
    assert Step(states[k], actions[k], states[k + 1]);
    CreateKeeps(states[k], states[k + 1], actions[k].id, actions[k].position, actions[k].number, IssuedBy(actions[..k], before));
  }

  /** The user table. */
  class UserTable {
    var accounts: Accounts

    constructor (users: seq<User>)
      ensures accounts == Accounts(users, None)
    {
      accounts := Accounts(users, None);
    }

    /** Repairs the numbers and the sequence at startup; a failure changes nothing. */
    method Restart() returns (r: Result<(), Error>)
      requires Ordered(accounts.users)
      modifies this
      ensures r.Success? ==> Restarted(old(accounts), accounts)
      ensures r.Failure? ==> accounts == old(accounts)
    {
      hide MaxNumber, NeedsRebuild, Ordered, HasAdmin;
      var users := BackfillUserNumbers(accounts.users);
      if users.Failure? {
        return Failure(users.error);
      }
      var max := MaxNumber(users.value);
      if max == MAX_INT64 {
        return Failure(Exhausted);
      }
      var next := Some(max + 1);
      if accounts.next.Some? && accounts.next.value > max + 1 {
        next := accounts.next;
      }
      accounts := Accounts(users.value, next);
      r := Success(());
    }

    /** Adds a user with the next number; no row has that number yet. */
    method CreateUser(id: string, position: nat, ghost issued: set<int64>) returns (r: Result<int64, Error>)
      requires Settled(accounts, issued) && 0 < position <= |accounts.users|
      requires id != ADMIN && forall i | 0 <= i < |accounts.users| :: accounts.users[i].id != id
      modifies this
      ensures r.Success? ==> Created(old(accounts), accounts, id, position, r.value) && r.value !in issued
      ensures r.Success? ==> forall i | 0 <= i < |old(accounts).users| :: old(accounts).users[i].number != Some(r.value)
      ensures r.Failure? ==> accounts == old(accounts) && r == Failure(Exhausted) && accounts.next == Some(MAX_INT64)
    {
      var n := accounts.next.value;
      if n <= 0 || n == MAX_INT64 {
        return Failure(Exhausted);
      }
      accounts := Accounts(accounts.users[..position] + [User(id, Some(n))] + accounts.users[position..], Some(n + 1));
      r := Success(n);
    }
  }
}
