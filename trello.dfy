/** trello.py: the query builder, the client-side card filter of the search, the text output
    and the exit codes of the command-line entry point. */
module Trello {
  import opened Wrappers
  import opened Strings
  import opened Sequences
  import opened TextIO

  /** The search criteria, keyed "board", "list", "member" and "name". */
  type Query = map<string, string>

  /** `query.get(key)` */
  function Lookup(q: Query, key: string): Option<string> {
    if key in q then Some(q[key]) else None
  }

  /** `build_query`: a key is present exactly when its argument is non-empty, and then holds
      that argument; there are no other keys. */
  function BuildQuery(board: Option<string>, listName: Option<string>, member: Option<string>,
                      name: Option<string>): (q: Query)
    ensures "board" in q <==> Truthy(board)
    ensures "list" in q <==> Truthy(listName)
    ensures "member" in q <==> Truthy(member)
    ensures "name" in q <==> Truthy(name)
    ensures "board" in q ==> q["board"] == board.value
    ensures "list" in q ==> q["list"] == listName.value
    ensures "member" in q ==> q["member"] == member.value
    ensures "name" in q ==> q["name"] == name.value
    ensures forall k :: k in q ==> k in ["board", "list", "member", "name"]
  {
    var q0: Query := map[];
    var q1 := if Truthy(board) then q0["board" := board.value] else q0;
    var q2 := if Truthy(listName) then q1["list" := listName.value] else q1;
    var q3 := if Truthy(member) then q2["member" := member.value] else q2;
    if Truthy(name) then q3["name" := name.value] else q3
  }

  /** A card as the filter and the output read it; None marks an absent field. */
  datatype Card = Card(id: Option<string>, name: Option<string>, idList: Option<string>, idMembers: Option<seq<string>>)

  /** The name pattern with every '*' removed, lower-cased: no '*' and no upper-case ASCII
      letter is left, a pattern of stars only matches everything, and a pattern without
      stars is only lower-cased. */
  function NamePattern(pattern: string): (r: string)
    ensures '*' !in r
    ensures forall i :: 0 <= i < |r| ==> !('A' <= r[i] <= 'Z')
    ensures (forall i :: 0 <= i < |pattern| ==> pattern[i] == '*') ==> r == ""
    ensures '*' !in pattern ==> r == Lower(pattern)
  {
    var stripped := RemoveChar(pattern, '*');
    assert '*' !in pattern ==> Split(pattern, '*') == [pattern] by {
      if '*' !in pattern {
        SplitJoin([pattern], '*');
      }
    }
    var r := Lower(stripped);
    assert forall i :: 0 <= i < |r| ==> r[i] == LowerChar(stripped[i]) && stripped[i] in stripped;
    r
  }

  /** The three conditions of the filter loop: the card is in the wanted list, has the
      wanted member and has a name holding the pattern, each checked only when asked for. */
  predicate ListMatches(q: Query, card: Card) {
    !Truthy(Lookup(q, "list")) || card.idList == Some(q["list"])
  }

  predicate MemberMatches(q: Query, card: Card) {
    !Truthy(Lookup(q, "member")) || q["member"] in card.idMembers.GetOr([])
  }

  predicate NameMatches(q: Query, card: Card) {
    !Truthy(Lookup(q, "name")) || Contains(Lower(card.name.GetOr("")), NamePattern(q["name"]))
  }

  function Keeps(q: Query): Card -> bool {
    card => ListMatches(q, card) && MemberMatches(q, card) && NameMatches(q, card)
  }

  /** The board's card listing as the server answers: the cards, or a request that raised.
      `HttpError` carries the error status of `raise_for_status`, and stands equally for a
      timeout, a connection error or a body that is not JSON: `main` gives status 3 for every
      exception of the search. */
  datatype CardsResponse = Cards(cards: seq<Card>) | HttpError(status: int)

  datatype SearchError = MissingBoard | HttpFailure(status: int)

  /** What `search_trello` returns for a query and the server's answer. */
  function SearchSpec(q: Query, response: CardsResponse): Result<seq<Card>, SearchError> {
    if !Truthy(Lookup(q, "board")) then Failure(MissingBoard)
    else
      match response
      case HttpError(status) => Failure(HttpFailure(status))
      case Cards(cards) => Success(Filter(Keeps(q), cards))
  }

  /** `search_trello`: refuse a query without a board, then keep the fetched cards that pass
      the list, member and name checks, in order. */
  method SearchTrello(q: Query, response: CardsResponse) returns (result: Result<seq<Card>, SearchError>)
    ensures result == SearchSpec(q, response)
  {
    var boardId := Lookup(q, "board");
    if !Truthy(boardId) {
      return Failure(MissingBoard);
    }
    if response.HttpError? {
      return Failure(HttpFailure(response.status));
    }
    var cards := response.cards;
    var allCards: seq<Card> := [];
    for i := 0 to |cards|
      invariant allCards == Filter(Keeps(q), cards[..i])
    {
      assert cards[..i + 1][..i] == cards[..i];
      var card := cards[i];
      if Truthy(Lookup(q, "list")) && card.idList != Some(q["list"]) {
        continue;
      }
      if Truthy(Lookup(q, "member")) && q["member"] !in card.idMembers.GetOr([]) {
        continue;
      }
      if Truthy(Lookup(q, "name")) {
        var pattern := Lower(RemoveChar(q["name"], '*'));
        if !Contains(Lower(card.name.GetOr("")), pattern) {
          continue;
        }
      }
      allCards := allCards + [card];
    }
    assert cards[..|cards|] == cards;
    return Success(allCards);
  }

  /** The returned cards are fetched cards in their original order, and a fetched card is
      returned exactly when it passes all three checks. */
  lemma SearchKeepsMatching(q: Query, cards: seq<Card>)
    requires Truthy(Lookup(q, "board"))
    ensures SearchSpec(q, Cards(cards)).Success?
    ensures IsSubsequence(SearchSpec(q, Cards(cards)).value, cards)
    ensures forall c :: c in SearchSpec(q, Cards(cards)).value <==>
              c in cards && ListMatches(q, c) && MemberMatches(q, c) && NameMatches(q, c)
  {
    FilterIsSubsequence(Keeps(q), cards);
    FilterMembers(Keeps(q), cards);
  }

  /** With no list, member or name criterion, every card is returned. */
  lemma NoFiltersKeepsAll(q: Query, cards: seq<Card>)
    requires Truthy(Lookup(q, "board"))
    requires !Truthy(Lookup(q, "list")) && !Truthy(Lookup(q, "member")) && !Truthy(Lookup(q, "name"))
    ensures SearchSpec(q, Cards(cards)) == Success(cards)
  {
    FilterKeepsAll(Keeps(q), cards);
  }

  /** A name pattern made only of '*' matches every card, named or not. */
  lemma StarsOnlyMatchesAll(q: Query, card: Card)
    requires "name" in q && forall i :: 0 <= i < |q["name"]| ==> q["name"][i] == '*'
    ensures NameMatches(q, card)
  {
    ContainsEmpty(Lower(card.name.GetOr("")));
  }

  /** The name check ignores case (ASCII) and the '*' marks: "*De*" finds "Deploy". */
  lemma NameMatchExample()
    ensures NameMatches(map["name" := "*De*"], Card(None, Some("Deploy"), None, None))
  {
    var pieces := ["", "De", ""];
    assert pieces[1..] == ["De", ""] && pieces[1..][1..] == [""];
    assert Join(pieces, "*") == "*De*";
    forall p | p in pieces ensures '*' !in p {
      assert p == "" || p == "De";
    }
    SplitJoin(pieces, '*');
    assert Join(pieces, "") == "De";
    var pattern := NamePattern("*De*");
    assert pattern == "de";
    var name := Lower("Deploy");
    assert name[0..2] == "de";
    assert OccursAt(name, pattern, 0);
  }

  /** `f"{card.get('id')} — {card.get('name')}"`: absent fields print as "None". */
  function CardLine(card: Card): string {
    PyStr(card.id) + " — " + PyStr(card.name)
  }

  function CardLines(cards: seq<Card>): (ls: seq<string>)
    ensures |ls| == |cards|
    ensures forall i :: 0 <= i < |cards| ==> ls[i] == CardLine(cards[i])
  {
    seq(|cards|, i requires 0 <= i < |cards| => CardLine(cards[i]))
  }

  /** `write_text_lines`: one line per card, in order. */
  method WriteTextLines(cards: seq<Card>, fp: TextStream)
    modifies fp
    ensures fp.text == old(fp.text) + Lines(CardLines(cards))
  {
    ghost var start := fp.text;
    for i := 0 to |cards|
      invariant fp.text == start + Lines(CardLines(cards[..i]))
    {
      var card := cards[i];
      assert CardLines(cards[..i + 1]) == CardLines(cards[..i]) + [CardLine(card)];
      LinesSnoc(CardLines(cards[..i]), CardLine(card));
      fp.Write(PyStr(card.id) + " — " + PyStr(card.name) + "\n");
    }
    assert cards[..|cards|] == cards;
  }

  /** Each card is one line of the output, provided no id or name holds a newline. */
  lemma CardOutputLines(cards: seq<Card>)
    requires forall i :: 0 <= i < |cards| ==> '\n' !in PyStr(cards[i].id) && '\n' !in PyStr(cards[i].name)
    ensures Split(Lines(CardLines(cards)), '\n') == CardLines(cards) + [""]
  {
    var ls := CardLines(cards);
    forall i | 0 <= i < |ls| ensures '\n' !in ls[i] {
      assert ls[i] == PyStr(cards[i].id) + " — " + PyStr(cards[i].name);
    }
    LinesSplit(ls);
  }

  /** The `[trello]` section of the configuration, as `read_config` returns it. */
  datatype TrelloConfig = TrelloConfig(key: Option<string>, token: Option<string>, defaultBoard: Option<string>)

  datatype TrelloArgs = TrelloArgs(board: Option<string>, listName: Option<string>, member: Option<string>, name: Option<string>)

  datatype TrelloOutcome = Exit(code: int, output: string)

  /** The query `main` builds: `--board`, else the configured default board. A board is
      queried exactly when one of the two is non-empty, and the flag wins. */
  function MainQuery(args: TrelloArgs, cfg: TrelloConfig): (q: Query)
    ensures "board" in q <==> Truthy(args.board) || Truthy(cfg.defaultBoard)
    ensures Truthy(args.board) ==> q["board"] == args.board.value
    ensures !Truthy(args.board) && Truthy(cfg.defaultBoard) ==> q["board"] == cfg.defaultBoard.value
  {
    BuildQuery(if Truthy(args.board) then args.board else cfg.defaultBoard, args.listName, args.member, args.name)
  }

  /** `main`, text output: status 2 for an unreadable configuration, a missing key or token,
      or no board from either the flag or the configuration; status 3 for a failed request;
      otherwise status 0 with the lines of the matching cards. */
  function Run(args: TrelloArgs, config: Result<TrelloConfig, string>, response: CardsResponse): (r: TrelloOutcome)
    ensures r.code == 2 <==>
              || config.Failure?
              || !Truthy(config.value.key) || !Truthy(config.value.token)
              || (!Truthy(args.board) && !Truthy(config.value.defaultBoard))
    ensures r.code == 3 <==>
              config.Success? && Truthy(config.value.key) && Truthy(config.value.token)
              && (Truthy(args.board) || Truthy(config.value.defaultBoard)) && response.HttpError?
    ensures r.code in {0, 2, 3}
    ensures r.code == 0 ==>
              && config.Success? && response.Cards?
              && r.output == Lines(CardLines(Filter(Keeps(MainQuery(args, config.value)), response.cards)))
  {
    match config
    case Failure(_) => Exit(2, "")
    case Success(cfg) =>
      if !Truthy(cfg.key) || !Truthy(cfg.token) then Exit(2, "")
      else
        var q := MainQuery(args, cfg);
        if !Truthy(Lookup(q, "board")) then Exit(2, "")
        else
          match SearchSpec(q, response)
          case Failure(_) => Exit(3, "")
          case Success(cards) => Exit(0, Lines(CardLines(cards)))
  }
}
