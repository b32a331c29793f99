/** GetTopicsWithMessages: the recursive query that hops from topic to topic over the
    primary key, against the plain question "which topics hold messages?". */
module LooseScan {
  import opened Tables
  import opened Messages

  // ----- the order of topics ----------------------------------------------------------

  /** TEXT order, character by character. */
  predicate Less(a: Topic, b: Topic) {
    b != "" && (a == "" || a[0] < b[0] || (a[0] == b[0] && Less(a[1..], b[1..])))
  }

  lemma {:induction false} LessTotal(a: Topic, b: Topic)
    ensures Less(a, b) || a == b || Less(b, a)
    ensures !(Less(a, b) && Less(b, a)) && !Less(a, a)
  {
    if a != "" {
      LessTotal(a[1..], a[1..]);
      if b != "" {
        LessTotal(a[1..], b[1..]);
        assert a == [a[0]] + a[1..] && b == [b[0]] + b[1..];
      }
    }
  }

  lemma {:induction false} LessTransitive(a: Topic, b: Topic, c: Topic)
    requires Less(a, b) && Less(b, c)
    ensures Less(a, c)
  {
    if a != "" && a[0] == b[0] == c[0] {
      LessTransitive(a[1..], b[1..], c[1..]);
    }
  }

  /** `a` and `b` agree on their first `n` characters, and there `a` ends or has the smaller one. */
  predicate SmallerAt(a: Topic, b: Topic, n: nat) {
    n <= |a| && n < |b| && a[..n] == b[..n] && (n == |a| || a[n] < b[n])
  }

  /** The order is the lexicographic one. */
  lemma {:induction false} LessIsLexicographic(a: Topic, b: Topic)
    ensures Less(a, b) <==> exists n: nat :: SmallerAt(a, b, n)
  {
    if a == "" || b == "" || a[0] != b[0] {
      if Less(a, b) {
        assert SmallerAt(a, b, 0);
      }
      assert forall n: nat | 0 < n <= |a| && n <= |b| :: a[..n][0] == a[0] && b[..n][0] == b[0];
      assert forall n: nat | SmallerAt(a, b, n) :: n == 0;
    } else {
      LessIsLexicographic(a[1..], b[1..]);
      forall n: nat | SmallerAt(a[1..], b[1..], n)
        ensures SmallerAt(a, b, n + 1)
      {
        assert a[..n + 1] == [a[0]] + a[1..][..n] && b[..n + 1] == [b[0]] + b[1..][..n];
      }
      forall n: nat | SmallerAt(a, b, n)
        ensures n > 0 && SmallerAt(a[1..], b[1..], n - 1)
      {
        assert a[1..][..n - 1] == a[..n][1..] && b[1..][..n - 1] == b[..n][1..];
      }
    }
  }

  // ----- the two probes ---------------------------------------------------------------

  predicate IsFirst(t: Topic, ts: set<Topic>) {
    t in ts && forall u | u in ts && u != t :: Less(t, u)
  }

  lemma {:induction false} FirstExists(ts: set<Topic>)
    requires ts != {}
    ensures exists t :: IsFirst(t, ts)
  {
    var t :| t in ts;
    if ts == {t} {
      assert IsFirst(t, ts);
    } else {
      FirstExists(ts - {t});
      var u :| IsFirst(u, ts - {t});
      LessTotal(t, u);
      var first := if Less(t, u) then t else u;
      forall v | v in ts && v != first
        ensures Less(first, v)
      {
        if first == t && v != u {
          LessTransitive(t, u, v);
        }
      }
      assert IsFirst(first, ts);
    }
  }

  lemma FirstUnique(ts: set<Topic>)
    ensures forall t, u | t in ts && u in ts && IsFirst(t, ts) && IsFirst(u, ts) :: t == u
  {
    forall t, u | t in ts && u in ts && IsFirst(t, ts) && IsFirst(u, ts)
      ensures t == u
    {
      LessTotal(t, u);
    }
  }

  /** ORDER BY topic LIMIT 1: a scalar subquery, NULL when there is no row. */
  function First(ts: set<Topic>): (first: Option<Topic>)
    ensures first.None? <==> ts == {}
    ensures first.Some? ==> IsFirst(first.value, ts)
  {
    if ts == {} then None
    else
      FirstExists(ts);
      FirstUnique(ts);
      var t :| t in ts && IsFirst(t, ts);
      Some(t)
  }

  /** The topics an index probe with `m.topic > t` can see. */
  function After(ts: set<Topic>, t: Topic): set<Topic> {
    set u | u in ts && Less(t, u)
  }

  // ----- the answer --------------------------------------------------------------------

  ghost predicate Ascending(s: seq<Topic>) {
    forall m, n | 0 <= m < n < |s| :: Less(s[m], s[n])
  }

  /** SELECT DISTINCT topic FROM messages ORDER BY topic. */
  ghost predicate IsDistinctTopics(s: seq<Topic>, rows: set<Key>) {
    Ascending(s) && forall t :: t in s <==> t in TopicsOf(rows)
  }

  /** There is only one such list. */
  lemma {:induction false} DistinctTopicsUnique(a: seq<Topic>, b: seq<Topic>)
    requires Ascending(a) && Ascending(b) && forall t :: t in a <==> t in b
    ensures a == b
  {
    if a == [] {
      assert forall n | 0 <= n < |b| :: b[n] in b;
    } else {
      assert a[0] in b && b[0] in a;
      LessTotal(a[0], b[0]);
      LessTotal(a[0], a[0]);
      forall t
        ensures t in a[1..] <==> t in b[1..]
      {
        LessTotal(a[0], t);
        LessTotal(t, t);
        assert t in a[1..] <==> t in a && t != a[0];
        assert t in b[1..] <==> t in b && t != b[0];
      }
      DistinctTopicsUnique(a[1..], b[1..]);
      assert a == [a[0]] + a[1..] && b == [b[0]] + b[1..];
    }
  }

  // ----- the recursive query -------------------------------------------------------------

  /** The non-NULL rows: the query's final WHERE. */
  function NotNull(tops: seq<Option<Topic>>): seq<Topic> {
    if tops == [] then []
    else NotNull(tops[..|tops| - 1]) + if tops[|tops| - 1].Some? then [tops[|tops| - 1].value] else []
  }

  lemma NotNullAppend(tops: seq<Option<Topic>>, x: Option<Topic>)
    ensures NotNull(tops + [x]) == NotNull(tops) + if x.Some? then [x.value] else []
  {
    assert (tops + [x])[..|tops|] == tops;
  }

  /** What the scan has found once it stands on `t`: everything up to `t`, in order. */
  ghost predicate UpTo(s: seq<Topic>, ts: set<Topic>, t: Topic) {
    Ascending(s) && forall u :: u in s <==> u in ts && !Less(t, u)
  }

  lemma StartUpTo(ts: set<Topic>)
    requires ts != {}
    ensures First(ts).Some? && UpTo([First(ts).value], ts, First(ts).value)
  {
    FirstExists(ts);
    var t := First(ts).value;
    forall u
      ensures u in [t] <==> u in ts && !Less(t, u)
    {
      LessTotal(t, u);
    }
  }

  lemma HopUpTo(s: seq<Topic>, ts: set<Topic>, t: Topic)
    requires UpTo(s, ts, t) && t in ts && After(ts, t) != {}
    ensures var next := First(After(ts, t));
            && next.Some? && next.value in ts && UpTo(s + [next.value], ts, next.value)
            && After(ts, next.value) < After(ts, t)
  {
    var after := After(ts, t);
    FirstExists(after);
    var v := First(after).value;
    LessTotal(v, v);
    forall u
      ensures u in s + [v] <==> u in ts && !Less(v, u)
      ensures u in s ==> Less(u, v)
    {
      LessTotal(t, u);
      LessTotal(u, v);
      if u in s && u != t {
        LessTransitive(u, t, v);
      }
    }
    forall u | u in After(ts, v)
      ensures u in after
    {
      LessTransitive(t, v, u);
    }
    assert v in after && v !in After(ts, v);
  }

  /** The recursive CTE, evaluated round by round: `working` is the working table, which
      never holds more than one row.  It terminates, and after dropping NULLs the
      accumulated rows are the distinct topics in order, for an empty table too. */
  method TopicsWithMessages(rows: set<Key>) returns (topics: seq<Topic>)
    ensures IsDistinctTopics(topics, rows)
  {
    var ts := TopicsOf(rows);
    var working := if ts == {} then [] else [First(ts)];
    var tops := working;
    if ts != {} {
      StartUpTo(ts);
      NotNullAppend([], First(ts));
      assert [] + working == working;
    }
    while working != []
      invariant |working| <= 1
      invariant working != [] && working[0].Some? ==>
                  working[0].value in ts && UpTo(NotNull(tops), ts, working[0].value)
      invariant working == [] || working[0].None? ==> IsDistinctTopics(NotNull(tops), rows)
      decreases if working != [] && working[0].Some? then After(ts, working[0].value) else {},
                if working == [] then 0 else if working[0].None? then 1 else 2
    {
      if working[0].Some? {
        var t := working[0].value;
        if After(ts, t) != {} {
          HopUpTo(NotNull(tops), ts, t);
        }
        NotNullAppend(tops, First(After(ts, t)));
        assert forall u | u in ts :: u in After(ts, t) || !Less(t, u);
        working := [First(After(ts, t))];
        tops := tops + working;
      } else {
        working := [];
      }
    }
    return NotNull(tops);
  }
}
