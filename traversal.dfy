/** Facts about the walk that `visit_body` drives: every block is visited once, in storage
    order, its statements in order before its terminator, so the log is the concatenation of
    the blocks' records and is ordered by location. */
module ValidateTraversal {
  import opened Mir
  import opened ValidateRules

  /** Per-block logs whose records all sit in the block they belong to. */
  ghost predicate Located(logs: seq<seq<Diagnostic>>) {
    forall k, x | 0 <= k < |logs| && x in logs[k] :: x.location.block == k
  }

  lemma AppendAssoc(a: seq<Diagnostic>, b: seq<Diagnostic>, c: seq<Diagnostic>)
    ensures (a + b) + c == a + (b + c)
  {
  }

  lemma FlattenAppend(logs: seq<seq<Diagnostic>>, k: nat)
    requires k < |logs|
    ensures Flatten(logs[..k + 1]) == Flatten(logs[..k]) + logs[k]
  {
    assert logs[..k + 1][..k] == logs[..k];
  }

  /** A record of located logs is in their concatenation iff it is in its own block's log. */
  lemma {:induction false} FlattenHas(logs: seq<seq<Diagnostic>>, d: Diagnostic)
    requires Located(logs)
    ensures d in Flatten(logs) <==> d.location.block < |logs| && d in logs[d.location.block]
    decreases |logs|
  {
    if logs != [] {
      var prefix := logs[..|logs| - 1];
      assert Located(prefix);
      FlattenHas(prefix, d);
      assert d in Flatten(logs) <==> d in Flatten(prefix) || d in logs[|logs| - 1];
    }
  }

  predicate LocationLe(a: Location, b: Location) {
    a.block < b.block || (a.block == b.block && a.statementIndex <= b.statementIndex)
  }

  ghost predicate Ordered(log: seq<Diagnostic>) {
    forall i, j | 0 <= i < j < |log| :: LocationLe(log[i].location, log[j].location)
  }

  lemma OrderedConcat(a: seq<Diagnostic>, b: seq<Diagnostic>)
    requires Ordered(a) && Ordered(b)
    requires forall x, y | x in a && y in b :: LocationLe(x.location, y.location)
    ensures Ordered(a + b)
  {
    var ab := a + b;
    forall i, j | 0 <= i < j < |ab| ensures LocationLe(ab[i].location, ab[j].location) {
      if j < |a| {
        assert ab[i] == a[i] && ab[j] == a[j];
      } else if i >= |a| {
        assert ab[i] == b[i - |a|] && ab[j] == b[j - |a|];
      } else {
        assert ab[i] == a[i] && ab[j] == b[j - |a|];
        assert a[i] in a && b[j - |a|] in b;
      }
    }
  }

  /** Concatenating located, individually ordered logs gives an ordered log. */
  lemma {:induction false} FlattenOrdered(logs: seq<seq<Diagnostic>>)
    requires Located(logs)
    requires forall k | 0 <= k < |logs| :: Ordered(logs[k])
    ensures Ordered(Flatten(logs))
    decreases |logs|
  {
    if logs != [] {
      var prefix, last := logs[..|logs| - 1], logs[|logs| - 1];
      assert Located(prefix);
      FlattenOrdered(prefix);
      forall x, y | x in Flatten(prefix) && y in last ensures LocationLe(x.location, y.location) {
        FlattenHas(prefix, x);
      }
      OrderedConcat(Flatten(prefix), last);
    }
  }

  lemma {:induction false} StatementsDiagnosticsOrdered(bb: BasicBlock, statements: seq<Statement>, n: nat)
    requires n <= |statements|
    ensures Ordered(StatementsDiagnostics(bb, statements, n))
  {
    if n > 0 {
      StatementsDiagnosticsOrdered(bb, statements, n - 1);
      OrderedConcat(StatementsDiagnostics(bb, statements, n - 1),
                    StatementDiagnostics(statements[n - 1], Location(bb, n - 1)));
    }
  }

  /** Within a block, statement records come in statement order, then the terminator's. */
  lemma BlockDiagnosticsOrdered(body: Body, env: TypeEnv, bb: BasicBlock)
    requires ValidBlock(body, bb)
    ensures Ordered(BlockDiagnostics(body, env, bb))
  {
    var data := body.basicBlocks[bb];
    StatementsDiagnosticsOrdered(bb, data.statements, |data.statements|);
    OrderedConcat(StatementsDiagnostics(bb, data.statements, |data.statements|),
                  TerminatorDiagnostics(body, env, data.terminator, Location(bb, |data.statements|)));
  }

  lemma BlockLogsLocated(body: Body, env: TypeEnv)
    ensures Located(BlockLogs(body, env))
  {
    var logs := BlockLogs(body, env);
    forall k: nat, x: Diagnostic | k < |logs| && x in logs[k] ensures x.location.block == k {
      assert logs[k] == BlockDiagnostics(body, env, k);
    }
  }

  /** Every record of the log belongs to a block of the body and is one of that block's. */
  lemma BodyDiagnosticsHas(body: Body, env: TypeEnv, d: Diagnostic)
    ensures d in BodyDiagnostics(body, env)
        <==> ValidBlock(body, d.location.block) && d in BlockDiagnostics(body, env, d.location.block)
  {
    BlockLogsLocated(body, env);
    FlattenHas(BlockLogs(body, env), d);
  }

  /** The log follows storage order: blocks in order, and within a block its statements in
      order before its terminator. */
  lemma BodyDiagnosticsOrdered(body: Body, env: TypeEnv)
    ensures Ordered(BodyDiagnostics(body, env))
  {
    var logs := BlockLogs(body, env);
    BlockLogsLocated(body, env);
    forall k | 0 <= k < |logs| ensures Ordered(logs[k]) {
      BlockDiagnosticsOrdered(body, env, k);
    }
    FlattenOrdered(logs);
  }
}
