/**
 * The normaliser as the front ends run it on the text the generator returns
 * (app.py:49-80; the same statements at app_movie.py:123-154 and
 * stream.py:57-76): strip, remove the fences, collapse the ORDER BY clauses,
 * then qualify the coin tables entry by entry, reassigning `sql` each time.
 */
module Normalizer {
  import opened Text
  import opened Fences
  import opened OrderBy
  import opened Qualification

  /** The three steps before the alias loop, as one function of the response. */
  function Prepared(response: String): String {
    Collapse(StripFences(Strip(response)))
  }

  /**
   * The normaliser. The result is what the functions of the steps compute,
   * and it is a text the alias loop leaves as it is, so a second run of the
   * loop over it changes nothing.
   */
  method Normalize(response: String) returns (sql: String)
    ensures sql == Qualify(Prepared(response))
    ensures CleanFor(Rules(), sql) && Qualify(sql) == sql
  {
    var prepared := Prepare(response);
    sql := QualifyAliases(prepared);
    QualifyIdempotent(prepared);
  }

  /** Strip, remove the fences, collapse the ORDER BY clauses. */
  method Prepare(response: String) returns (sql: String)
    ensures sql == Prepared(response)
  {
    sql := Strip(response);
    sql := StripOpeningFence(sql);
    sql := StripClosingFence(sql);
    var allOrders := FindAll(sql);
    if allOrders != [] {
      var lastOrder := Strip(allOrders[|allOrders| - 1]);
      sql := RStripSemicolons(Strip(RemoveClauses(sql)));
      sql := sql + "\n" + lastOrder;
    }
  }

  /** The alias loop: the FROM and the JOIN substitution of each entry, in the order of the map. */
  method QualifyAliases(prepared: String) returns (sql: String)
    ensures sql == Qualify(prepared)
  {
    sql := prepared;
    for i := 0 to |AliasToTable|
      invariant QualifyWith(sql, AliasToTable[i..]) == Qualify(prepared)
    {
      var entry := AliasToTable[i];
      assert AliasToTable[i..][0] == entry && AliasToTable[i..][1..] == AliasToTable[i + 1..];
      sql := Apply(FromRule(entry), sql);
      sql := Apply(JoinRule(entry), sql);
    }
  }
}
