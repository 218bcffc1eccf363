/** The `blocks` table of the header fetcher: one row per height, each row
    holding the serialized header. Both columns carry a unique constraint, so
    a table is a map from height to payload that is also injective on its
    payloads. */
module HeaderStore {

  /** Height -> serialized header. A map already holds at most one row per
      height; `UniquePayloads` adds the second unique column. */
  type Store = map<nat, string>

  /** What opening the database finds: no `blocks` table yet, or one with rows. */
  datatype Table = Missing | Present(rows: Store)

  /** The answer of the database to an insert. */
  datatype InsertResult = Inserted(store: Store) | Rejected

  /** No two rows share a payload (the unique `block` column). */
  ghost predicate UniquePayloads(s: Store)
  {
    forall a, b {:trigger s[a], s[b]} :: a in s && b in s && a != b ==> s[a] != s[b]
  }

  /** `after` is `before` with exactly one new row (h, p) and every old row unchanged. */
  ghost predicate Extends(before: Store, after: Store, h: nat, p: string)
  {
    && h !in before
    && after.Keys == before.Keys + {h}
    && after[h] == p
    && forall k :: k in before ==> after[k] == before[k]
  }

  /** Every row of `s` is in `t` with the same payload. */
  ghost predicate Keeps(s: Store, t: Store)
  {
    forall k :: k in s ==> k in t && t[k] == s[k]
  }

  /** An insert of (h, p): the unique constraints reject a height or a
      payload that is already present; otherwise exactly that row is added. */
  function Insert(s: Store, h: nat, p: string): (r: InsertResult)
    ensures r.Inserted? <==> h !in s && p !in s.Values
    ensures r.Inserted? ==> Extends(s, r.store, h, p)
    ensures r.Inserted? && UniquePayloads(s) ==> UniquePayloads(r.store)
  {
    if h in s || p in s.Values then Rejected else Inserted(s[h := p])
  }

  /** Deletes every row whose height is below `start`. */
  function Prune(s: Store, start: nat): (r: Store)
    ensures forall k :: k in r ==> start <= k
    ensures forall k :: k in s && start <= k ==> k in r
    ensures Keeps(r, s)
    ensures UniquePayloads(s) ==> UniquePayloads(r)
  {
    map k | k in s && start <= k :: s[k]
  }

  /** Opening the store at `start`: a missing table is created empty, an
      existing one is pruned below `start`. */
  function CheckTable(t: Table, start: nat): (r: Store)
    ensures t.Missing? ==> r == map[]
    ensures forall k :: k in r ==> start <= k
    ensures t.Present? ==> Keeps(r, t.rows)
    ensures t.Present? ==> forall k :: k in t.rows && start <= k ==> k in r
  {
    match t
    case Missing => map[]
    case Present(rows) => Prune(rows, start)
  }

  /** Opening the store twice at the same start height changes nothing the
      second time. */
  lemma CheckTableIdempotent(t: Table, start: nat)
    ensures CheckTable(Present(CheckTable(t, start)), start) == CheckTable(t, start)
  {
  }

  /** Opening at a higher start height after a lower one is the same as
      opening at the higher one directly. */
  lemma CheckTableMonotone(t: Table, lo: nat, hi: nat)
    requires lo <= hi
    ensures CheckTable(Present(CheckTable(t, lo)), hi) == CheckTable(t, hi)
  {
  }
}
