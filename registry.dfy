/**
 * The table of graphics contexts a vertex array keeps, one per
 * PreparedGraphicsObjects it has been prepared on, as a value: what
 * prepare_now, release and clear_prepared do to it. The class in
 * VertexArrayData keeps its table equal to these functions.
 */
module Registry {
  import opened VertexTypes

  /**
   * The table after prepare_now on `k`, where `made` is what the consumer
   * created when asked (None for the null context). An existing entry is
   * kept and the consumer's answer ignored.
   */
  function Prepared<K, C>(ctx: map<K, C>, k: K, made: Option<C>): map<K, C>
  {
    if k in ctx then ctx else if made.Some? then ctx[k := made.value] else ctx
  }

  /** The context prepare_now hands back. */
  function Handed<K, C>(ctx: map<K, C>, k: K, made: Option<C>): Option<C>
  {
    if k in ctx then Some(ctx[k]) else made
  }

  /** The table after clear_prepared on `k` (an unknown `k` fails its assertion and changes nothing). */
  function Cleared<K, C>(ctx: map<K, C>, k: K): (r: map<K, C>)
    ensures r.Keys == ctx.Keys - {k}
  {
    ctx - {k}
  }

  /**
   * prepare_now answers with the recorded context whenever it answers at
   * all, records at most the one key, and leaves every other entry alone.
   */
  lemma PrepareNowRecords<K, C>(ctx: map<K, C>, k: K, made: Option<C>)
    ensures var r := Prepared(ctx, k, made);
            && (Handed(ctx, k, made).Some? <==> k in r)
            && (k in r ==> Handed(ctx, k, made) == Some(r[k]))
            && (forall j :: j != k ==> (j in r <==> j in ctx))
            && (forall j :: j != k && j in r ==> r[j] == ctx[j])
  {
  }

  /**
   * Once prepared, a second prepare_now on the same key changes nothing
   * and does not depend on what the consumer would answer.
   */
  lemma PrepareNowIdempotent<K, C>(ctx: map<K, C>, k: K, made: Option<C>, again: Option<C>)
    requires Handed(ctx, k, made).Some?
    ensures Prepared(Prepared(ctx, k, made), k, again) == Prepared(ctx, k, made)
    ensures Handed(Prepared(ctx, k, made), k, again) == Handed(ctx, k, made)
  {
  }

  /** clear_prepared removes the one key and keeps every other entry as it was. */
  lemma ClearedKeepsOthers<K, C>(ctx: map<K, C>, k: K)
    ensures k !in Cleared(ctx, k)
    ensures forall j :: j != k ==> (j in Cleared(ctx, k) <==> j in ctx)
    ensures forall j :: j != k && j in ctx ==> Cleared(ctx, k)[j] == ctx[j]
  {
  }

  /** Releasing what prepare_now just recorded restores the table. */
  lemma ReleaseUndoesPrepare<K, C>(ctx: map<K, C>, k: K, made: Option<C>)
    requires k !in ctx
    ensures Cleared(Prepared(ctx, k, made), k) == ctx
  {
    var r := Cleared(Prepared(ctx, k, made), k);
    assert r.Keys == ctx.Keys;
  }
}
