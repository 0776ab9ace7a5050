/** The texts sent to clients: cards as `suit-rank#`, players as `name-index-score#`. Both can be read
    back without ambiguity. */
module Text {
  import opened Dealer

  // ----- numbers -----

  function Digit(d: nat): (c: char)
    requires d < 10
    ensures '0' <= c <= '9'
  {
    '0' + d as char
  }

  predicate IsDigit(c: char) {
    '0' <= c <= '9'
  }

  function NatText(n: nat): (s: string)
    ensures s != [] && forall c <- s :: IsDigit(c)
  {
    if n < 10 then [Digit(n)] else NatText(n / 10) + [Digit(n % 10)]
  }

  function IntText(i: int): (s: string)
    ensures s != []
  {
    if i < 0 then "-" + NatText(-i) else NatText(i)
  }

  function ReadNat(s: string): int {
    if s == [] then 0
    else 10 * ReadNat(s[..|s| - 1]) + (s[|s| - 1] as int - '0' as int)
  }

  function ReadInt(s: string): int {
    if s != [] && s[0] == '-' then -ReadNat(s[1..]) else ReadNat(s)
  }

  lemma {:induction false} NatReads(n: nat)
    ensures ReadNat(NatText(n)) == n
  {
    if n < 10 {
      assert [Digit(n)][..0] == [];
    } else {
      var s := NatText(n);
      assert s[..|s| - 1] == NatText(n / 10);
      NatReads(n / 10);
    }
  }

  lemma IntReads(i: int)
    ensures ReadInt(IntText(i)) == i
  {
    if i < 0 {
      NatReads(-i);
      assert IntText(i)[1..] == NatText(-i);
    } else {
      NatReads(i);
      assert IntText(i)[0] in NatText(i);
    }
  }

  lemma IntTextFree(i: int)
    ensures '#' !in IntText(i)
  {
  }

  // ----- cutting at a separator -----

  /** The position of the first separator, or the length. */
  function Find(s: string, sep: char): (i: nat)
    ensures i <= |s| && (i < |s| ==> s[i] == sep)
  {
    if s == [] || s[0] == sep then 0 else 1 + Find(s[1..], sep)
  }

  lemma {:induction false} FindAfter(a: string, sep: char, rest: string)
    requires sep !in a
    ensures Find(a + [sep] + rest, sep) == |a|
  {
    if a == [] {
      assert a + [sep] + rest == [sep] + rest;
    } else {
      assert a[0] in a;
      assert (a + [sep] + rest)[1..] == a[1..] + [sep] + rest;
      FindAfter(a[1..], sep, rest);
    }
  }

  function Before(s: string, sep: char): string {
    s[..Find(s, sep)]
  }

  function Behind(s: string, sep: char): (r: string)
    ensures s != [] ==> |r| < |s|
    ensures s == [] ==> r == []
  {
    var i := Find(s, sep);
    if i < |s| then s[i + 1..] else []
  }

  lemma CutAt(a: string, sep: char, rest: string)
    requires sep !in a
    ensures Before(a + [sep] + rest, sep) == a && Behind(a + [sep] + rest, sep) == rest
  {
    FindAfter(a, sep, rest);
  }

  // ----- cards -----

  function EntryOf(c: Card): (s: string)
    ensures '#' !in s
  {
    NatText(c.suit) + ['-'] + NatText(c.rank)
  }

  function CardText(c: Card): string {
    EntryOf(c) + ['#']
  }

  function CardsText(cards: seq<Card>): string {
    if cards == [] then [] else CardText(cards[0]) + CardsText(cards[1..])
  }

  function ReadCard(s: string): (int, int) {
    (ReadNat(Before(s, '-')), ReadNat(Behind(s, '-')))
  }

  /** A client's reading of a card text: entries end at `#`, suit and rank are apart at `-`. */
  function ReadCards(s: string): seq<(int, int)>
    decreases |s|
  {
    if s == [] then [] else [ReadCard(Before(s, '#'))] + ReadCards(Behind(s, '#'))
  }

  function Pairs(cards: seq<Card>): seq<(int, int)> {
    seq(|cards|, i requires 0 <= i < |cards| => (cards[i].suit, cards[i].rank))
  }

  lemma CardReads(c: Card)
    ensures ReadCard(EntryOf(c)) == (c.suit, c.rank)
  {
    CutAt(NatText(c.suit), '-', NatText(c.rank));
    NatReads(c.suit);
    NatReads(c.rank);
  }

  lemma ReadCardsStep(entry: string, rest: string)
    requires '#' !in entry
    ensures ReadCards(entry + ['#'] + rest) == [ReadCard(entry)] + ReadCards(rest)
  {
    CutAt(entry, '#', rest);
  }

  lemma PairsStep(cards: seq<Card>)
    requires cards != []
    ensures Pairs(cards) == [(cards[0].suit as int, cards[0].rank as int)] + Pairs(cards[1..])
  {
  }

  /** Every card text reads back to its cards, in order. */
  lemma {:induction false} CardsRead(cards: seq<Card>)
    ensures ReadCards(CardsText(cards)) == Pairs(cards)
  {
    if cards != [] {
      var c, rest := cards[0], CardsText(cards[1..]);
      CardReads(c);
      assert CardsText(cards) == EntryOf(c) + ['#'] + rest;
      ReadCardsStep(EntryOf(c), rest);
      CardsRead(cards[1..]);
      PairsStep(cards);
    }
  }

  lemma CardsTextInjective(cards: seq<Card>, others: seq<Card>)
    requires CardsText(cards) == CardsText(others)
    ensures cards == others
  {
    CardsRead(cards);
    CardsRead(others);
    assert |cards| == |Pairs(cards)| == |Pairs(others)| == |others|;
    forall i | 0 <= i < |cards|
      ensures cards[i] == others[i]
    {
      assert Pairs(cards)[i] == Pairs(others)[i];
    }
  }

  /** The text that `deal_cards` builds, card by card. */
  method WriteCards(cards: seq<Card>) returns (text: string)
    ensures text == CardsText(cards)
    ensures ReadCards(text) == Pairs(cards)
  {
    text := "";
    for i := 0 to |cards|
      invariant text + CardsText(cards[i..]) == CardsText(cards)
    {
      assert cards[i..][0] == cards[i] && cards[i..][1..] == cards[i + 1..];
      ghost var before := text;
      text := text + (NatText(cards[i].suit) + "-" + NatText(cards[i].rank) + "#");
      assert before + (CardText(cards[i]) + CardsText(cards[i + 1..])) == text + CardsText(cards[i + 1..]);
    }
    CardsRead(cards);
  }

  /** What a card text looks like. */
  lemma CardSpelled()
    ensures CardsText([Card(0, 14)]) == "0-14#"
  {
    assert NatText(14) == "14" && NatText(0) == "0";
    assert [Card(0, 14)][1..] == [];
  }

  // ----- players -----

  datatype Ranked = Ranked(name: string, score: int)

  predicate PlainName(name: string) {
    '-' !in name && '#' !in name
  }

  function EntryText(p: Ranked, index: int): string {
    p.name + ['-'] + (IntText(index) + ['-'] + IntText(p.score))
  }

  function OrderText(players: seq<Ranked>, index: int): string {
    if players == [] then []
    else EntryText(players[0], index) + ['#'] + OrderText(players[1..], index + 1)
  }

  function ReadEntry(s: string): (string, int, int) {
    var behind := Behind(s, '-');
    (Before(s, '-'), ReadInt(Before(behind, '-')), ReadInt(Behind(behind, '-')))
  }

  /** A client's reading of the order text: the score is all that follows the second `-`. */
  function ReadOrder(s: string): seq<(string, int, int)>
    decreases |s|
  {
    if s == [] then [] else [ReadEntry(Before(s, '#'))] + ReadOrder(Behind(s, '#'))
  }

  function Listing(players: seq<Ranked>, index: int): seq<(string, int, int)> {
    seq(|players|, i requires 0 <= i < |players| => (players[i].name, index + i, players[i].score))
  }

  /** What an order text looks like. */
  lemma OrderSpelled()
    ensures OrderText([Ranked("ann", -12)], 1) == "ann-1--12#"
  {
    assert NatText(12) == "12" && NatText(1) == "1";
    assert [Ranked("ann", -12)][1..] == [];
    assert EntryText(Ranked("ann", -12), 1) == "ann-1--12";
  }

  lemma EntryReads(p: Ranked, index: nat)
    requires PlainName(p.name)
    ensures ReadEntry(EntryText(p, index)) == (p.name, index, p.score)
    ensures '#' !in EntryText(p, index)
  {
    CutAt(p.name, '-', IntText(index) + ['-'] + IntText(p.score));
    CutAt(IntText(index), '-', IntText(p.score));
    IntReads(index);
    IntReads(p.score);
    IntTextFree(index);
    IntTextFree(p.score);
  }

  lemma ReadOrderStep(entry: string, rest: string)
    requires '#' !in entry
    ensures ReadOrder(entry + ['#'] + rest) == [ReadEntry(entry)] + ReadOrder(rest)
  {
    CutAt(entry, '#', rest);
  }

  lemma ListingStep(players: seq<Ranked>, index: int)
    requires players != []
    ensures Listing(players, index)
            == [(players[0].name, index, players[0].score)] + Listing(players[1..], index + 1)
  {
  }

  /** With plain names, whatever the scores, the order text reads back to each player with their
      position and score. */
  lemma {:induction false} OrderReads(players: seq<Ranked>, index: nat)
    requires forall p <- players :: PlainName(p.name)
    ensures ReadOrder(OrderText(players, index)) == Listing(players, index)
  {
    if players != [] {
      assert players[0] in players;
      EntryReads(players[0], index);
      ReadOrderStep(EntryText(players[0], index), OrderText(players[1..], index + 1));
      OrderReads(players[1..], index + 1);
      ListingStep(players, index);
    }
  }

  // ----- which names keep the text unambiguous -----

  lemma IntTextShape(i: int)
    ensures forall k :: 1 <= k < |IntText(i)| ==> IsDigit(IntText(i)[k])
    ensures IsDigit(IntText(i)[|IntText(i)| - 1])
    ensures i >= 0 ==> '-' !in IntText(i)
  {
    var n := if i < 0 then -i else i;
    assert forall k :: 0 <= k < |NatText(n)| ==> NatText(n)[k] in NatText(n);
  }

  lemma IntTextInjective(i: int, j: int)
    requires IntText(i) == IntText(j)
    ensures i == j
  {
    IntReads(i);
    IntReads(j);
  }

  /** The score's text cannot be longer in one of two equal entries: the dash in front of the shorter one
      would be the longer one's sign, and the dash in front of that the last digit of the position. */
  lemma NotLonger(p: Ranked, q: Ranked, index: nat)
    requires EntryText(p, index) == EntryText(q, index)
    ensures |IntText(p.score)| <= |IntText(q.score)|
  {
    var t := EntryText(p, index);
    var a, b := |t| - |IntText(p.score)|, |t| - |IntText(q.score)|;
    IntTextShape(index);
    IntTextShape(p.score);
    assert t[b - 1] == '-' && IsDigit(t[b - 2]);
    assert t[a - 1] == '-' && t[a..] == IntText(p.score);
  }

  lemma EntryInjective(p: Ranked, q: Ranked, index: nat)
    requires EntryText(p, index) == EntryText(q, index)
    ensures p == q
  {
    NotLonger(p, q, index);
    NotLonger(q, p, index);
    var t := EntryText(p, index);
    var a := |t| - |IntText(p.score)|;
    assert t[a..] == IntText(p.score) && t[a..] == IntText(q.score);
    IntTextInjective(p.score, q.score);
    assert t[..|p.name|] == p.name && t[..|q.name|] == q.name;
  }

  ghost predicate NoName(players: seq<Ranked>, c: char) {
    forall p <- players :: c !in p.name
  }

  lemma OrderTextStep(players: seq<Ranked>, index: int)
    requires players != []
    ensures OrderText(players, index)
            == EntryText(players[0], index) + ['#'] + OrderText(players[1..], index + 1)
    ensures OrderText(players, index) != []
  {
  }

  lemma EntryFree(p: Ranked, index: int)
    requires '#' !in p.name
    ensures '#' !in EntryText(p, index)
  {
    IntTextFree(index);
    IntTextFree(p.score);
  }

  /** Names may contain `-`, if they are free of `#`: different rankings have different texts, whatever
      the scores. */
  lemma {:induction false} HashFreeInjective(players: seq<Ranked>, others: seq<Ranked>, index: nat)
    requires NoName(players, '#') && NoName(others, '#')
    requires OrderText(players, index) == OrderText(others, index)
    ensures players == others
    decreases |players|
  {
    if players == [] || others == [] {
      if players != [] {
        OrderTextStep(players, index);
      }
      if others != [] {
        OrderTextStep(others, index);
      }
    } else {
      var p, q := players[0], others[0];
      assert p in players && q in others;
      OrderTextStep(players, index);
      OrderTextStep(others, index);
      EntryFree(p, index);
      EntryFree(q, index);
      CutAt(EntryText(p, index), '#', OrderText(players[1..], index + 1));
      CutAt(EntryText(q, index), '#', OrderText(others[1..], index + 1));
      EntryInjective(p, q, index);
      HashFreeInjective(players[1..], others[1..], index + 1);
    }
  }

  /** The text from the first entry on, cut at its two dashes and at the end of its score. */
  lemma DashCuts(p: Ranked, index: nat, rest: string)
    requires '-' !in p.name
    ensures var t := EntryText(p, index) + ['#'] + rest;
            var afterName := Behind(t, '-');
            var afterIndex := Behind(afterName, '-');
            Before(t, '-') == p.name && Before(afterIndex, '#') == IntText(p.score)
            && Behind(afterIndex, '#') == rest
  {
    var scoreOn := IntText(p.score) + ['#'] + rest;
    var indexOn := IntText(index) + ['-'] + scoreOn;
    assert EntryText(p, index) + ['#'] + rest == p.name + ['-'] + indexOn;
    CutAt(p.name, '-', indexOn);
    IntTextShape(index);
    CutAt(IntText(index), '-', scoreOn);
    IntTextFree(p.score);
    CutAt(IntText(p.score), '#', rest);
  }

  /** Names may contain `#`, if they are free of `-`. */
  lemma {:induction false} DashFreeInjective(players: seq<Ranked>, others: seq<Ranked>, index: nat)
    requires NoName(players, '-') && NoName(others, '-')
    requires OrderText(players, index) == OrderText(others, index)
    ensures players == others
    decreases |players|
  {
    if players == [] || others == [] {
      if players != [] {
        OrderTextStep(players, index);
      }
      if others != [] {
        OrderTextStep(others, index);
      }
    } else {
      var p, q := players[0], others[0];
      assert p in players && q in others;
      OrderTextStep(players, index);
      OrderTextStep(others, index);
      DashCuts(p, index, OrderText(players[1..], index + 1));
      DashCuts(q, index, OrderText(others[1..], index + 1));
      IntTextInjective(p.score, q.score);
      DashFreeInjective(players[1..], others[1..], index + 1);
    }
  }

  /** All names are written in the given characters. */
  ghost predicate NamesOver(players: seq<Ranked>, alphabet: set<char>) {
    forall p <- players :: forall c <- p.name :: c in alphabet
  }

  ghost predicate Unambiguous(alphabet: set<char>) {
    forall players: seq<Ranked>, others: seq<Ranked> ::
      NamesOver(players, alphabet) && NamesOver(others, alphabet) && OrderText(players, 1) == OrderText(others, 1)
      ==> players == others
  }

  lemma TwoPlayersText(p: Ranked, q: Ranked)
    ensures OrderText([p, q], 1) == EntryText(p, 1) + ['#'] + EntryText(q, 2) + ['#']
  {
    assert [p, q][1..] == [q];
    assert OrderText([q], 2) == EntryText(q, 2) + ['#'] + OrderText([q][1..], 3);
  }

  /** Two rankings, each by falling score, that look the same. */
  lemma SeparatorsInNamesCollide()
    ensures OrderText([Ranked("", 7), Ranked("-1-6#", 5)], 1) == OrderText([Ranked("-1-7#", 6), Ranked("", 5)], 1)
  {
    TwoPlayersText(Ranked("", 7), Ranked("-1-6#", 5));
    TwoPlayersText(Ranked("-1-7#", 6), Ranked("", 5));
    assert IntText(1) == "1" && IntText(2) == "2";
    assert IntText(5) == "5" && IntText(6) == "6" && IntText(7) == "7";
  }

  /** For names that may contain digits, the text tells all rankings apart exactly when the names may not
      contain both separators. */
  lemma UnambiguousIff(alphabet: set<char>)
    requires forall c :: IsDigit(c) ==> c in alphabet
    ensures Unambiguous(alphabet) <==> !('-' in alphabet && '#' in alphabet)
  {
    if '-' in alphabet && '#' in alphabet {
      var players, others := [Ranked("", 7), Ranked("-1-6#", 5)], [Ranked("-1-7#", 6), Ranked("", 5)];
      SeparatorsInNamesCollide();
      assert NamesOver(players, alphabet) && NamesOver(others, alphabet) && players[0] != others[0];
    } else {
      forall players: seq<Ranked>, others: seq<Ranked> |
        NamesOver(players, alphabet) && NamesOver(others, alphabet) && OrderText(players, 1) == OrderText(others, 1)
        ensures players == others
      {
        if '#' !in alphabet {
          HashFreeInjective(players, others, 1);
        } else {
          DashFreeInjective(players, others, 1);
        }
      }
    }
  }
}
