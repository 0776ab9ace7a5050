/** The order of a room's players: members by score from high to low, as the server lists them. */
module PlayersOrder {
  import opened Text

  type Roster = map<string, int>

  /** Byte order of names. */
  predicate NameLess(a: string, b: string) {
    if b == [] then false
    else if a == [] then true
    else a[0] < b[0] || (a[0] == b[0] && NameLess(a[1..], b[1..]))
  }

  /** Redis orders a sorted set by score and then by name; the reversed range starts at the top. */
  predicate Above(p: Ranked, q: Ranked) {
    p.score > q.score || (p.score == q.score && NameLess(q.name, p.name))
  }

  lemma {:induction false} NameOrderTotal(a: string, b: string)
    ensures NameLess(a, b) || NameLess(b, a) || a == b
    ensures !(NameLess(a, b) && NameLess(b, a))
    ensures !NameLess(a, a)
  {
    if a != [] {
      NameOrderTotal(a[1..], a[1..]);
      if b != [] && a[0] == b[0] {
        NameOrderTotal(a[1..], b[1..]);
        assert a[1..] == b[1..] ==> a == [a[0]] + a[1..] == [b[0]] + b[1..] == b;
      }
    }
  }

  lemma {:induction false} NameOrderTransitive(a: string, b: string, c: string)
    requires NameLess(a, b) && NameLess(b, c)
    ensures NameLess(a, c)
  {
    if a != [] && a[0] == b[0] == c[0] {
      NameOrderTransitive(a[1..], b[1..], c[1..]);
    }
  }

  lemma AboveTransitive(p: Ranked, q: Ranked, r: Ranked)
    requires Above(p, q) && Above(q, r)
    ensures Above(p, r)
  {
    if p.score == q.score == r.score {
      NameOrderTransitive(r.name, q.name, p.name);
    }
  }

  /** What `zrevrange 0 -1` returns for a sorted set. */
  ghost predicate RevRange(roster: Roster, output: seq<Ranked>) {
    && (forall p :: p in output <==> p.name in roster && roster[p.name] == p.score)
    && (forall i, j :: 0 <= i < j < |output| ==> Above(output[i], output[j]))
  }

  /** The listing has each member once. */
  lemma EachMemberOnce(roster: Roster, output: seq<Ranked>)
    requires RevRange(roster, output)
    ensures |output| == |roster|
    ensures forall i, j :: 0 <= i < j < |output| ==> output[i].name != output[j].name
    ensures forall i, j :: 0 <= i < j < |output| ==> output[i].score >= output[j].score
  {
    forall i, j | 0 <= i < j < |output|
      ensures output[i].name != output[j].name && output[i].score >= output[j].score
    {
      assert Above(output[i], output[j]);
      assert output[i] in output && output[j] in output;
      NameOrderTotal(output[i].name, output[j].name);
    }
    NamesCount(output);
    assert (set p <- output :: p.name) == roster.Keys by {
      forall name | name in roster
        ensures name in (set p <- output :: p.name)
      {
        assert Ranked(name, roster[name]) in output;
      }
    }
  }

  lemma {:induction false} NamesCount(output: seq<Ranked>)
    requires forall i, j :: 0 <= i < j < |output| ==> output[i].name != output[j].name
    ensures |set p <- output :: p.name| == |output|
  {
    if output != [] {
      var front, last := output[..|output| - 1], output[|output| - 1];
      NamesCount(front);
      assert output == front + [last];
      assert (set p <- output :: p.name) == (set p <- front :: p.name) + {last.name};
      assert last.name !in (set p <- front :: p.name);
    }
  }

  /** There is only one such listing, so every member is told the same order. */
  lemma {:induction false} OneOrder(out1: seq<Ranked>, out2: seq<Ranked>)
    requires forall p :: p in out1 <==> p in out2
    requires forall i, j :: 0 <= i < j < |out1| ==> Above(out1[i], out1[j])
    requires forall i, j :: 0 <= i < j < |out2| ==> Above(out2[i], out2[j])
    ensures out1 == out2
    decreases |out1|
  {
    if out1 == [] {
      assert forall i :: 0 <= i < |out2| ==> out2[i] in out1;
    } else {
      assert out1[0] in out2;
      SameTop(out1, out2);
      TailMembers(out1);
      TailMembers(out2);
      OneOrder(out1[1..], out2[1..]);
    }
  }

  lemma SameTop(out1: seq<Ranked>, out2: seq<Ranked>)
    requires out1 != [] && out2 != [] && out1[0] in out2 && out2[0] in out1
    requires forall i, j :: 0 <= i < j < |out1| ==> Above(out1[i], out1[j])
    requires forall i, j :: 0 <= i < j < |out2| ==> Above(out2[i], out2[j])
    ensures out1[0] == out2[0]
  {
    var i :| 0 <= i < |out2| && out2[i] == out1[0];
    var j :| 0 <= j < |out1| && out1[j] == out2[0];
    NameOrderTotal(out1[0].name, out2[0].name);
  }

  lemma TailMembers(output: seq<Ranked>)
    requires output != []
    requires forall i, j :: 0 <= i < j < |output| ==> Above(output[i], output[j])
    ensures forall p :: p in output[1..] <==> p in output && p != output[0]
  {
    NameOrderTotal(output[0].name, output[0].name);
    forall p | p in output && p != output[0]
      ensures p in output[1..]
    {
      var i :| 0 <= i < |output| && output[i] == p;
      assert output[1..][i - 1] == p;
    }
    forall p | p in output[1..]
      ensures p in output && p != output[0]
    {
      var i :| 0 <= i < |output[1..]| && output[1..][i] == p;
      assert output[i + 1] == p && Above(output[0], output[i + 1]);
    }
  }

  /** Puts a player where they belong in an ordered listing. */
  function Insert(output: seq<Ranked>, p: Ranked): seq<Ranked> {
    if output == [] || Above(p, output[0]) then [p] + output
    else [output[0]] + Insert(output[1..], p)
  }

  lemma {:induction false} InsertKeepsOrder(output: seq<Ranked>, p: Ranked)
    requires forall i, j :: 0 <= i < j < |output| ==> Above(output[i], output[j])
    requires forall q <- output :: q.name != p.name
    ensures var r := Insert(output, p);
            (forall q :: q in r <==> q == p || q in output)
            && forall i, j :: 0 <= i < j < |r| ==> Above(r[i], r[j])
  {
    if output != [] {
      if Above(p, output[0]) {
        forall q | q in output
          ensures Above(p, q)
        {
          var i :| 0 <= i < |output| && output[i] == q;
          if i > 0 {
            AboveTransitive(p, output[0], q);
          }
        }
      } else {
        assert output[0] in output;
        NameOrderTotal(output[0].name, p.name);
        InsertKeepsOrder(output[1..], p);
        var tail := Insert(output[1..], p);
        forall q | q in tail
          ensures Above(output[0], q)
        {
          if q != p {
            var i :| 0 <= i < |output[1..]| && output[1..][i] == q;
            assert output[i + 1] == q;
          }
        }
      }
    }
  }

  /** Every sorted set has a listing. */
  lemma {:induction false} SomeOrder(roster: Roster) returns (output: seq<Ranked>)
    ensures RevRange(roster, output)
    decreases |roster|
  {
    if roster == map[] {
      output := [];
    } else {
      var name :| name in roster;
      var others := roster - {name};
      assert others.Keys == roster.Keys - {name};
      assert |others.Keys| == |roster.Keys| - 1;
      var smaller := SomeOrder(others);
      output := Insert(smaller, Ranked(name, roster[name]));
      InsertKeepsOrder(smaller, Ranked(name, roster[name]));
    }
  }

  /** For instance: the higher score first, and of equal scores the later name. */
  lemma OrderForInstance()
    ensures RevRange(map["a" := 1, "b" := 1, "c" := 0, "ab" := 1],
                     [Ranked("b", 1), Ranked("ab", 1), Ranked("a", 1), Ranked("c", 0)])
  {
    assert NameLess("a", "ab") && NameLess("ab", "b") && NameLess("a", "b");
  }

  lemma EntrySpelled(p: Ranked, index: int)
    ensures p.name + "-" + IntText(index) + "-" + IntText(p.score) + "#" == EntryText(p, index) + ['#']
  {
  }

  lemma AppendEntry(data: string, players: seq<Ranked>, index: int)
    requires players != []
    ensures data + OrderText(players, index)
            == data + (EntryText(players[0], index) + ['#']) + OrderText(players[1..], index + 1)
  {
  }

  /** The text built from what Redis returned, entry by entry with a running index. With plain names a
      client reads back every member once, numbered from 1 by falling score. */
  method PlayersOrderText(roster: Roster, output: seq<Ranked>) returns (data: string)
    requires RevRange(roster, output)
    ensures data == OrderText(output, 1)
    ensures (forall name <- roster :: PlainName(name)) ==> ReadOrder(data) == Listing(output, 1)
  {
    data := "";
    var index := 1;
    for i := 0 to |output|
      invariant index == i + 1
      invariant data + OrderText(output[i..], index) == OrderText(output, 1)
    {
      assert output[i..][0] == output[i] && output[i..][1..] == output[i + 1..];
      EntrySpelled(output[i], index);
      AppendEntry(data, output[i..], index);
      data := data + (output[i].name + "-" + IntText(index) + "-" + IntText(output[i].score) + "#");
      index := index + 1;
    }
    if forall name <- roster :: PlainName(name) {
      assert forall p <- output :: PlainName(p.name);
      OrderReads(output, 1);
    }
  }
}
