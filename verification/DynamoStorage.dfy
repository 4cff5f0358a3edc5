/** CertMagic's storage on the shared table. */
module DynamoStorage {
  import opened Common
  import opened CertTable
  import opened Paths
  import opened Paging
  import opened Tree

  datatype StorageError = NotExist | RequestError | ContextDone

  /** The scan's pages all saw this table. */
  ghost predicate Sees(order: seq<string>, pages: seq<PageRead>, table: Table) {
    ValidOrder(order, pages) && Undisturbed(pages, table)
  }

  lemma SeenScanLists(order: seq<string>, pages: seq<PageRead>, table: Table, dir: string)
    requires Sees(order, pages, table) && Scan(order, dir + "/", pages).Ok?
    ensures Lists(table, dir, Scan(order, dir + "/", pages).value)
  {
    ScanUnderInterference(order, dir + "/", pages);
    UndisturbedScan(order, dir + "/", pages, table);
  }

  /** What a scan for a directory returned is under the directory, disturbed or not. */
  lemma ScannedIsUnder(order: seq<string>, pages: seq<PageRead>, dir: string)
    requires ValidOrder(order, pages) && Scan(order, dir + "/", pages).Ok?
    ensures forall k :: k in Scan(order, dir + "/", pages).value ==> Under(dir, k)
  {
    ScanUnderInterference(order, dir + "/", pages);
  }

  /** The requests of a Delete: everything found under the key, and the key itself last. */
  function DeleteRequests(key: string, found: seq<string>): seq<string> {
    found + [key]
  }

  /** With others storing and deleting between pages, a Delete still asks, once each, for every key that's under its own
      throughout the scan, and for nothing that isn't at or under it. */
  lemma DeleteUnderInterference(order: seq<string>, pages: seq<PageRead>, key: string)
    requires ValidOrder(order, pages) && Scan(order, key + "/", pages).Ok?
    ensures var requests := DeleteRequests(key, Scan(order, key + "/", pages).value);
            && NoDuplicates(requests)
            && key in requests
            && (forall k :: k in requests ==> k == key || Under(key, k))
            && forall k :: Under(key, k) && (forall i :: 0 <= i < |pages| && pages[i].Page? ==> k in pages[i].table) ==>
                k in requests
  {
    ScanUnderInterference(order, key + "/", pages);
    var found := Scan(order, key + "/", pages).value;
    assert key !in found;
    NoDuplicatesConcat(found, [key]);
    assert (found + [key])[|found|] == key;
  }

  function Less(table: Table, keys: seq<string>): Table {
    map k | k in table && k !in keys :: table[k]
  }

  /** A lock item is due at the first of a waiter's polls, a poll interval apart, that may take it. */
  ghost predicate FirstPoll(table: Table, key: string, start: int, k: nat) {
    && MayTake(table, key, start + k * LOCK_POLL_EVERY)
    && forall j :: 0 <= j < k ==> !MayTake(table, key, start + j * LOCK_POLL_EVERY)
  }

  /** The loop of List that cuts keys down to immediate children, each once. */
  method ImmediateChildren(dir: string, keys: seq<string>) returns (children: seq<string>)
    requires forall k :: k in keys ==> Under(dir, k)
    ensures children == Children(dir, keys)
  {
    var prefix := dir + "/";
    var seen: set<string> := {};
    children := [];
    var i := 0;
    while i < |keys|
      invariant 0 <= i <= |keys|
      invariant children == Children(dir, keys[..i])
      invariant forall c :: c in seen <==> c in children
    {
      assert Under(dir, keys[i]);
      var rest := keys[i][|prefix|..];
      var slash := IndexSlash(rest);
      if slash >= 0 {
        rest := rest[..slash];
      }
      var child := prefix + rest;
      assert child == Child(dir, keys[i]);
      assert keys[..i + 1][..i] == keys[..i];
      if child !in seen {
        seen := seen + {child};
        children := children + [child];
      }
      i := i + 1;
    }
    assert keys[..i] == keys;
  }

  /** The table is a field; what else happens during a scan arrives as the pages the scan reads, and `up` or a request's
      number says which requests fail. */
  class DynamoStorage {
    var table: Table

    constructor ()
      ensures table == map[]
    {
      table := map[];
    }

    method Get(key: string, up: bool) returns (r: Result<Option<Item>, StorageError>)
      ensures r == if !up then Err(RequestError) else if key in table then Ok(Some(table[key])) else Ok(None)
    {
      if !up {
        return Err(RequestError);
      }
      return if key in table then Ok(Some(table[key])) else Ok(None);
    }

    method Store(key: string, value: Bytes, now: int, up: bool) returns (err: Option<StorageError>)
      modifies this
      ensures err == if up then None else Some(RequestError)
      ensures table == if up then ApplyFlat(old(table), Put(key, Item(value, Some(now), 0))) else old(table)
    {
      if !up {
        return Some(RequestError);
      }
      table := table[key := Item(value, Some(now), 0)];
      return None;
    }

    method Load(key: string, up: bool) returns (r: Result<Bytes, StorageError>)
      ensures !up ==> r == Err(RequestError)
      ensures up ==> (r.Ok? <==> Tree.Stat(table, key).Some? && Tree.Stat(table, key).value.isTerminal)
      ensures up && r.Ok? ==> r.value == table[key].value && |r.value| == Tree.Stat(table, key).value.size
      ensures up && r.Err? ==> r.error == NotExist
    {
      var item := Get(key, up);
      if item.Err? {
        return Err(item.error);
      }
      if item.value.None? {
        return Err(NotExist);
      }
      return Ok(item.value.value.value);
    }

    /** Deletes what a scan finds under the key, then the key. The requests before the `failAt`th get through. */
    method Delete(key: string, order: seq<string>, pages: seq<PageRead>, failAt: nat)
      returns (err: Option<StorageError>)
      requires ValidOrder(order, pages)
      modifies this
      ensures Scan(order, key + "/", pages).Err? ==> err == Some(RequestError) && table == old(table)
      ensures Scan(order, key + "/", pages).Ok? ==>
                var requests := DeleteRequests(key, Scan(order, key + "/", pages).value);
                && err == (if failAt < |requests| then Some(RequestError) else None)
                && table == Less(old(table), requests[..Min(failAt, |requests|)])
      ensures forall k :: k in old(table) && k != key && !Under(key, k) ==> k in table && table[k] == old(table)[k]
      ensures forall k :: k in table ==> k in old(table) && table[k] == old(table)[k]
      ensures err.None? && Sees(order, pages, old(table)) ==> table == ApplyFlat(old(table), Op.Delete(key))
    {
      var scanned := KeysWithPrefix(order, key + "/", pages);
      if scanned.Err? {
        return Some(RequestError);
      }
      ScannedIsUnder(order, pages, key);
      var requests := scanned.value + [key];
      var i := 0;
      while i < |requests|
        invariant 0 <= i <= |requests| && i <= failAt
        invariant table == Less(old(table), requests[..i])
      {
        if i == failAt {
          return Some(RequestError);
        }
        table := table - {requests[i]};
        assert requests[..i + 1] == requests[..i] + [requests[i]];
        i := i + 1;
      }
      assert requests[..i] == requests;
      if Sees(order, pages, old(table)) {
        SeenScanLists(order, pages, old(table), key);
      }
      return None;
    }

    method Exists(key: string, up: bool, order: seq<string>, pages: seq<PageRead>) returns (r: bool)
      requires ValidOrder(order, pages)
      ensures !up ==> !r
      ensures r && Sees(order, pages, table) ==> Tree.Exists(table, key)
      ensures up && key in table ==> r
      ensures up && Sees(order, pages, table) && Scan(order, key + "/", pages).Ok? ==> r == Tree.Exists(table, key)
      ensures up && key !in table && Scan(order, key + "/", pages).Err? ==> !r
    {
      var item := Get(key, up);
      if item.Err? {
        return false;
      }
      if item.value.Some? {
        return true;
      }
      var scanned := KeysWithPrefix(order, key + "/", pages);
      if scanned.Ok? && Sees(order, pages, table) {
        SeenScanLists(order, pages, table, key);
        if scanned.value != [] {
          assert scanned.value[0] in scanned.value;
        }
      }
      return scanned.Ok? && |scanned.value| > 0;
    }

    method List(path: string, recursive: bool, order: seq<string>, pages: seq<PageRead>)
      returns (r: Result<seq<string>, StorageError>)
      requires ValidOrder(order, pages)
      ensures r.Ok? <==> Scan(order, path + "/", pages).Ok?
      ensures r.Err? ==> r.error == RequestError
      ensures r.Ok? ==>
                var found := Scan(order, path + "/", pages).value;
                && (forall k :: k in found ==> Under(path, k))
                && r.value == (if recursive then found else Children(path, found))
      ensures r.Ok? && recursive && Sees(order, pages, table) ==> Lists(table, path, r.value)
    {
      var prefix := path + "/";
      var scanned := KeysWithPrefix(order, prefix, pages);
      if scanned.Err? {
        return Err(RequestError);
      }
      var keys := scanned.value;
      ScannedIsUnder(order, pages, path);
      if Sees(order, pages, table) {
        SeenScanLists(order, pages, table, path);
      }
      if recursive {
        return Ok(keys);
      }

      var children := ImmediateChildren(path, keys);
      return Ok(children);
    }

    method Stat(key: string, up: bool, order: seq<string>, pages: seq<PageRead>)
      returns (r: Result<KeyInfo, StorageError>)
      requires ValidOrder(order, pages)
      ensures !up || (key !in table && Scan(order, key + "/", pages).Err?) ==> r == Err(RequestError)
      ensures up && Sees(order, pages, table) && (key in table || Scan(order, key + "/", pages).Ok?) ==>
                r == if Tree.Stat(table, key).Some? then Ok(Tree.Stat(table, key).value) else Err(NotExist)
      ensures up && key in table ==> r == Ok(KeyInfo(key, table[key].modified, |table[key].value|, true))
      ensures up && key !in table && Scan(order, key + "/", pages).Ok? ==>
                r == if Scan(order, key + "/", pages).value == [] then Err(NotExist)
                  else Ok(KeyInfo(key, None, 0, false))
    {
      var item := Get(key, up);
      if item.Err? {
        return Err(item.error);
      }
      if item.value.Some? {
        var found := item.value.value;
        return Ok(KeyInfo(key, found.modified, |found.value|, true));
      }
      var scanned := KeysWithPrefix(order, key + "/", pages);
      if scanned.Err? {
        return Err(RequestError);
      }
      if Sees(order, pages, table) {
        SeenScanLists(order, pages, table, key);
        if scanned.value != [] {
          assert scanned.value[0] in scanned.value;
        }
      }
      if |scanned.value| == 0 {
        return Err(NotExist);
      }
      return Ok(KeyInfo(key, None, 0, false));
    }

    /** Takes the lock for a sole waiter with a true clock that reads `start` to begin with, polling until a moment
        from which its context is done, or until a put, if there's one, that fails for another reason than its
        condition. Nothing else touches the lock meanwhile. */
    method Lock(name: string, start: int, done: int, failing: Option<nat>) returns (err: Option<StorageError>, at: int)
      modifies this
      ensures err.None? ==>
                exists k: nat :: at == start + k * LOCK_POLL_EVERY && FirstPoll(old(table), LockKey(name), start, k)
      ensures err.None? ==> table == ApplyFlat(old(table), Put(LockKey(name), LockItem(at)))
      ensures err.Some? ==> err.value in {ContextDone, RequestError} && table == old(table)
      ensures err == Some(RequestError) ==>
                failing.Some? && at == start + failing.value * LOCK_POLL_EVERY && (failing.value > 0 ==> at < done)
      ensures err.Some? ==> forall k: nat :: FirstPoll(old(table), LockKey(name), start, k) ==>
                              (k > 0 && done <= start + k * LOCK_POLL_EVERY) || (failing.Some? && failing.value <= k)
    {
      var now, polls := start, 0;
      while true
        invariant polls >= 0 && now == start + polls * LOCK_POLL_EVERY
        invariant polls > 0 ==> now < done
        invariant table == old(table) && (failing.Some? ==> polls <= failing.value)
        invariant forall j :: 0 <= j < polls ==> !MayTake(table, LockKey(name), start + j * LOCK_POLL_EVERY)
        decreases done - now
      {
        if failing == Some(polls) {
          return Some(RequestError), now;
        }
        if MayTake(table, LockKey(name), now) {
          table := table[LockKey(name) := LockItem(now)];
          assert FirstPoll(old(table), LockKey(name), start, polls);
          return None, now;
        }
        if done <= now + LOCK_POLL_EVERY {
          return Some(ContextDone), now;
        }
        now, polls := now + LOCK_POLL_EVERY, polls + 1;
      }
    }

    method Unlock(name: string, up: bool) returns (err: Option<StorageError>)
      modifies this
      ensures err == if up then None else Some(RequestError)
      ensures table == if up then ApplyFlat(old(table), Remove(LockKey(name))) else old(table)
    {
      if !up {
        return Some(RequestError);
      }
      table := table - {LockKey(name)};
      return None;
    }
  }

  /** A waiter that was there before the lease of a dead instance ran out gets its lock, strictly after the lease's 300
      seconds and before 302. `read` is what the dead instance's clock read. */
  lemma AbandonedLockIsReclaimed(table: Table, name: string, read: int, start: int) returns (k: nat)
    requires LockKey(name) in table && table[LockKey(name)] == LockItem(read) && LockItem(read).expires != 0
    requires start <= read + LOCK_DURATION
    ensures FirstPoll(table, LockKey(name), start, k)
    ensures read + LOCK_DURATION < start + k * LOCK_POLL_EVERY < read + LOCK_DURATION + 2 * SECOND
  {
    var due := (UnixSeconds(read + LOCK_DURATION) + 1) * SECOND;  // the first moment past the stored expiry
    assert forall clock :: MayTake(table, LockKey(name), clock) <==> due <= clock;
    k := 0;
    while start + k * LOCK_POLL_EVERY < due
      invariant k == 0 || start + (k - 1) * LOCK_POLL_EVERY < due
      decreases due - (start + k * LOCK_POLL_EVERY)
    {
      k := k + 1;
    }
  }

  /** There's only one first poll, so that's the one the Lock of that waiter is granted at. */
  lemma FirstPollIsUnique(table: Table, key: string, start: int, j: nat, k: nat)
    requires FirstPoll(table, key, start, j) && FirstPoll(table, key, start, k)
    ensures j == k
  {
  }
}
