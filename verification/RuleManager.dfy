/**
 The manager that owns the rule engines of the proxies, the rule table, and the
 global rules with their deadlines. Each method is one call of the manager, and
 is tied to the value-level step of RuleStore or GlobalRules.
 */
module RuleManager {
  import opened Options
  import opened Matching
  import opened RuleEngine
  import GlobalRules
  import RuleStore

  function IdSet(ids: seq<string>): set<string> {
    set id | id in ids
  }

  /** Drops the rules whose id is listed: what is left are the rules of the
      matchers that stay. */
  method Retain(ghost ms: seq<Matcher>, rules: seq<Rule>, ids: seq<string>) returns (kept: seq<Rule>)
    requires rules == RulesOf(ms)
    ensures kept == RulesOf(Without(ms, IdSet(ids)))
  {
    kept := [];
    var i := |rules|;
    while i > 0
      invariant 0 <= i <= |rules|
      invariant kept == RulesOf(Without(ms[i..], IdSet(ids)))
    {
      i := i - 1;
      assert ms[i..][1..] == ms[i + 1..];
      if rules[i].id !in ids {
        assert Without(ms[i..], IdSet(ids)) == [ms[i]] + Without(ms[i + 1..], IdSet(ids));
        kept := [rules[i]] + kept;
      }
    }
    assert ms[0..] == ms;
  }

  class ProxyManager {
    const texts: Texts
    var engines: map<string, seq<Matcher>>
    var rows: RuleStore.Table
    var globalRules: seq<Matcher>
    var deadlines: map<string, int>

    ghost function Store(): RuleStore.State
      reads this
    {
      RuleStore.State(engines, rows)
    }

    ghost function Global(): GlobalRules.State
      reads this
    {
      GlobalRules.State(globalRules, deadlines)
    }

    method AddRule(proxyId: string, rule: Rule) returns (found: bool)
      modifies `engines, `rows
      ensures found <==> proxyId in old(engines)
      ensures Store() == RuleStore.AddRule(texts, old(Store()), proxyId, rule)
    {
      found := proxyId in engines;
      if found {
        var current := RulesOf(engines[proxyId]);
        current := Retain(engines[proxyId], current, [rule.id]);
        assert IdSet([rule.id]) == {rule.id};
        engines := engines[proxyId := Build(texts, current + [rule])];
        rows := rows[rule.id := RuleStore.Row(proxyId, RuleStore.Persisted(rule))];
      }
    }

    method RemoveRule(proxyId: string, id: string) returns (found: bool)
      modifies `engines, `rows
      ensures found <==> proxyId in old(engines)
      ensures Store() == RuleStore.RemoveRule(texts, old(Store()), proxyId, id)
    {
      found := proxyId in engines;
      if found {
        var current := RulesOf(engines[proxyId]);
        current := Retain(engines[proxyId], current, [id]);
        assert IdSet([id]) == {id};
        engines := engines[proxyId := Build(texts, current)];
        rows := rows - {id};
      }
    }

    method ReloadRules(proxyId: string, rules: seq<Rule>) returns (count: Option<nat>)
      modifies `engines, `rows
      ensures count == if proxyId in old(engines) then Some(|rules|) else None
      ensures Store() == RuleStore.ReloadRules(texts, old(Store()), proxyId, rules)
    {
      if proxyId !in engines {
        return None;
      }
      engines := engines[proxyId := Build(texts, rules)];
      DeleteRows(proxyId);
      ghost var cleared := rows;
      for i := 0 to |rules|
        invariant rows == RuleStore.SaveAll(cleared, proxyId, rules[..i])
        invariant engines == old(engines)[proxyId := Build(texts, rules)]
      {
        assert rules[..i + 1][..i] == rules[..i];
        rows := rows[rules[i].id := RuleStore.Row(proxyId, RuleStore.Persisted(rules[i]))];
      }
      assert rules[..|rules|] == rules;
      return Some(|rules|);
    }

    /** Reads the rows of the proxy and deletes them one id at a time. */
    method DeleteRows(proxyId: string)
      modifies `rows
      ensures rows == old(rows) - RuleStore.RowIds(old(rows), proxyId)
    {
      var todo := RuleStore.RowIds(rows, proxyId);
      ghost var done: set<string> := {};
      while todo != {}
        invariant done + todo == RuleStore.RowIds(old(rows), proxyId)
        invariant rows == old(rows) - done
        decreases |todo|
      {
        var id :| id in todo;
        rows, todo := rows - {id}, todo - {id};
        done := done + {id};
      }
      assert done == RuleStore.RowIds(old(rows), proxyId);
    }

    /** A temporary rule gets a deadline and no row, a permanent one a row. */
    method AddGlobalRule(g: GlobalRules.GlobalRule)
      modifies `globalRules, `deadlines, `rows
      ensures Global() == GlobalRules.Add(texts, old(Global()), g)
      ensures Store() == if g.Temporary() then old(Store()) else RuleStore.AddGlobalRow(old(Store()), g.AsRule())
    {
      var rule := g.AsRule();
      var current := RulesOf(globalRules);
      current := Retain(globalRules, current, [g.id]);
      assert IdSet([g.id]) == {g.id};
      globalRules := Build(texts, current + [rule]);
      if g.expiresAt.Some? && g.expiresAt.value > 0 {
        deadlines := deadlines[g.id := g.expiresAt.value];
        return;
      }
      rows := rows[rule.id := RuleStore.Row(RuleStore.GLOBAL, RuleStore.Persisted(rule))];
    }

    method RemoveGlobalRule(id: string)
      modifies `globalRules, `deadlines, `rows
      ensures Global() == GlobalRules.Remove(texts, old(Global()), id)
      ensures Store() == RuleStore.RemoveGlobalRow(old(Store()), id)
    {
      var current := RulesOf(globalRules);
      current := Retain(globalRules, current, [id]);
      assert IdSet([id]) == {id};
      globalRules := Build(texts, current);
      deadlines := deadlines - {id};
      rows := rows - {id};
    }

    /** First half of the sweep, under the lock of the deadlines alone. */
    method CollectExpired(now: int) returns (ids: seq<string>)
      ensures IdSet(ids) == GlobalRules.Expired(deadlines, now)
    {
      ids := [];
      var todo := deadlines.Keys;
      while todo != {}
        invariant todo <= deadlines.Keys
        invariant IdSet(ids) == GlobalRules.Expired(deadlines, now) - todo
        decreases |todo|
      {
        var id :| id in todo;
        todo := todo - {id};
        if deadlines[id] < now {
          ghost var before := ids;
          ids := ids + [id];
          assert IdSet(ids) == IdSet(before) + {id};
        }
      }
    }

    /** Second half, after other calls may have come in between. */
    method DropExpired(ids: seq<string>)
      modifies `globalRules, `deadlines
      ensures Global() == GlobalRules.Drop(texts, old(Global()), IdSet(ids))
    {
      if |ids| == 0 {
        GlobalRules.WithoutShorter(globalRules, {});
        assert IdSet(ids) == {};
        return;
      }
      var current := RulesOf(globalRules);
      var before := |current|;
      current := Retain(globalRules, current, ids);
      if |current| < before {
        globalRules := Build(texts, current);
        for i := 0 to |ids|
          invariant deadlines == old(deadlines) - IdSet(ids[..i])
          invariant globalRules == Build(texts, current)
        {
          assert ids[..i + 1] == ids[..i] + [ids[i]];
          assert IdSet(ids[..i + 1]) == IdSet(ids[..i]) + {ids[i]};
          deadlines := deadlines - {ids[i]};
        }
        assert ids[..|ids|] == ids;
      }
    }
  }
}
