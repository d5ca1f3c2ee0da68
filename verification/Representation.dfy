/** How the items a store physically holds stand for the cells of the atomic contract. */
module Representation {
  import opened Domain
  import opened AtomicContract

  datatype Stored = Stored(expiresAt: real, record: Record)

  function ValueIn(table: map<string, Stored>, key: string): Option<Record> {
    if key in table then Some(table[key].record) else None
  }

  /** The store holds the last value written under each key, except that items whose
      time has run out may be gone. */
  ghost predicate Represents(cells: Cells, table: map<string, Stored>, clock: real) {
    && (forall k :: k in table ==>
          && k in cells && cells[k].value == Some(table[k].record)
          && cells[k].expiresAt == table[k].expiresAt)
    && (forall k :: k in cells && k !in table && cells[k].value.Some? ==> cells[k].expiresAt <= clock)
    && (forall k :: k in cells ==> cells[k].writtenAt <= clock)
  }

  lemma WritingKeepsRepresents(cells: Cells, table: map<string, Stored>, clock: real, key: string,
                               result: Option<Record>, ttl: real, now: real)
    requires Represents(cells, table, clock) && clock <= now
    ensures Represents(cells[key := Cell(result, now + ttl, now)],
                       if result.None? then table - {key} else table[key := Stored(now + ttl, result.value)], now)
  {
  }
}
