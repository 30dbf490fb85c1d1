/** `save_to_mssql`: the confirmation prompt, the connection it opens when it is
    not given one, and the `created_at` and `id` columns it adds before the
    frame is written with `to_sql(..., if_exists="replace")`. The frame's rows,
    the timestamp value and the write itself are not modelled. */
module SaveMssql {
  import opened Wrappers
  import opened Text
  import opened Connect

  /** The answer to `([y]/n)` goes on only when it is `y` in any case. */
  predicate Confirmed(answer: string)
  {
    Lower(answer) == "y"
  }

  /** Exactly `y` and `Y` confirm; in particular an empty answer aborts, though
      the prompt shows `y` as the default. */
  lemma ConfirmedExactly(answer: string)
    ensures Confirmed(answer) <==> answer == "y" || answer == "Y"
    ensures !Confirmed("")
  {
    if Confirmed(answer) {
      assert |answer| == 1;
      assert Lower(answer)[0] == LowerChar(answer[0]) == 'y';
      assert answer == [answer[0]];
    }
    if answer == "Y" {
      assert Lower(answer) == [LowerChar('Y')];
    }
    assert |Lower("")| == 0;
  }

  /** The columns after the two guards: `created_at` is appended when asked for
      and missing, then `id` is put first when asked for and missing. */
  function ColumnsAfterGuards(cols: seq<string>, addId: bool, addTimestamp: bool): seq<string>
  {
    var stamped := if addTimestamp && "created_at" !in cols then cols + ["created_at"] else cols;
    if addId && "id" !in stamped then ["id"] + stamped else stamped
  }

  /** The frame's own columns stay, in order, between the added ones; each added
      column is there exactly when it was asked for or already present; no
      other column appears. */
  lemma GuardsKeepColumns(cols: seq<string>, addId: bool, addTimestamp: bool)
    ensures var r := ColumnsAfterGuards(cols, addId, addTimestamp);
      var front := if addId && "id" !in cols then 1 else 0;
      && front + |cols| <= |r|
      && r[front..front + |cols|] == cols
      && ("id" in r <==> addId || "id" in cols)
      && ("created_at" in r <==> addTimestamp || "created_at" in cols)
      && (forall c :: c != "id" && c != "created_at" ==> (c in r <==> c in cols))
      && (addId ==> r[0] == "id" || "id" in cols)
  {
    var stamped := if addTimestamp && "created_at" !in cols then cols + ["created_at"] else cols;
    assert stamped[..|cols|] == cols;
    assert "id" in stamped <==> "id" in cols;
    if addId && "id" !in stamped {
      assert (["id"] + stamped)[1..1 + |cols|] == stamped[..|cols|];
    }
  }

  /** Applying the guards to their own result adds nothing more. */
  lemma GuardsIdempotent(cols: seq<string>, addId: bool, addTimestamp: bool)
    ensures ColumnsAfterGuards(ColumnsAfterGuards(cols, addId, addTimestamp), addId, addTimestamp)
      == ColumnsAfterGuards(cols, addId, addTimestamp)
  {
    GuardsKeepColumns(cols, addId, addTimestamp);
  }

  /** No column name twice. */
  predicate Distinct(cols: seq<string>)
  {
    forall i, j :: 0 <= i < j < |cols| ==> cols[i] != cols[j]
  }

  /** The guards never duplicate a column, which `DataFrame.insert` would refuse. */
  lemma GuardsKeepDistinct(cols: seq<string>, addId: bool, addTimestamp: bool)
    requires Distinct(cols)
    ensures Distinct(ColumnsAfterGuards(cols, addId, addTimestamp))
  {
    var stamped := if addTimestamp && "created_at" !in cols then cols + ["created_at"] else cols;
    assert Distinct(stamped) by {
      if addTimestamp && "created_at" !in cols {
        forall i, j | 0 <= i < j < |stamped| ensures stamped[i] != stamped[j] {
          if j == |cols| {
            assert stamped[i] == cols[i];
          }
        }
      }
    }
    if addId && "id" !in stamped {
      var r := ["id"] + stamped;
      forall i, j | 0 <= i < j < |r| ensures r[i] != r[j] {
        assert r[j] == stamped[j - 1];
        if i > 0 {
          assert r[i] == stamped[i - 1];
        }
      }
    }
  }

  /** What the function does. With a connection given, `url` is `None`. */
  datatype Saved =
    | Aborted
    | MissingTarget
    | Written(url: Option<string>, columns: seq<string>)

  /** Host and database after the optional environment lookup. */
  function SaveTarget(host: string, db: string, useEnv: bool, env: map<string, string>): (Option<string>, Option<string>)
  {
    if useEnv then (Getenv(env, host), Getenv(env, db)) else (Some(host), Some(db))
  }

  /** The prompt (when asked for), then the connection (when none is given),
      then the column guards. */
  function SaveToMssql(askUser: bool, answer: string, hasCon: bool, host: string, db: string, useEnv: bool,
                       env: map<string, string>, cols: seq<string>, addId: bool, addTimestamp: bool): (r: Saved)
    ensures r.Aborted? <==> askUser && !Confirmed(answer)
    ensures r.MissingTarget? <==>
      (!askUser || Confirmed(answer)) && !hasCon
      && (!Truthy(SaveTarget(host, db, useEnv, env).0) || !Truthy(SaveTarget(host, db, useEnv, env).1))
    ensures r.Written? ==> r.columns == ColumnsAfterGuards(cols, addId, addTimestamp)
    ensures r.Written? ==> (r.url.None? <==> hasCon)
  {
    if askUser && !Confirmed(answer) then Aborted
    else if hasCon then Written(None, ColumnsAfterGuards(cols, addId, addTimestamp))
    else
      var (h, d) := SaveTarget(host, db, useEnv, env);
      if !Truthy(h) || !Truthy(d) then MissingTarget
      else
        match ConnectionUrl(d.value, h.value, "", "", false, env, "mssql")
        case Url(url) => Written(Some(url), ColumnsAfterGuards(cols, addId, addTimestamp))
        case _ => MissingTarget
  }

  /** The connection it opens is an mssql URL with empty user and password, for
      the resolved host and database. */
  lemma SaveConnectsWithoutCredentials(askUser: bool, answer: string, host: string, db: string, useEnv: bool,
                                       env: map<string, string>, cols: seq<string>, addId: bool, addTimestamp: bool)
    requires SaveToMssql(askUser, answer, false, host, db, useEnv, env, cols, addId, addTimestamp).Written?
    ensures var t := SaveTarget(host, db, useEnv, env);
      SaveToMssql(askUser, answer, false, host, db, useEnv, env, cols, addId, addTimestamp).url
        == Some(MssqlScheme + ":@" + t.0.value + "/" + t.1.value + MssqlDriver)
  {
    var t := SaveTarget(host, db, useEnv, env);
    var p := Params(Some(t.1.value), Some(t.0.value), Some(""), Some(""));
    assert Resolve(t.1.value, t.0.value, "", "", false, env) == p;
    assert ServerUrl(MssqlScheme, p, MssqlDriver) == MssqlScheme + ":@" + t.0.value + "/" + t.1.value + MssqlDriver;
  }
}
