/** Printing and parsing together: which trees come back, with objects compared as the bags of their
    bindings. */
module JsonRoundTrip {
  import opened Wrappers
  import opened JsonTree
  import opened JsonBuild
  import opened JsonParse
  import opened JsonPrinted
  import opened JsonLex
  import opened JsonText
  import opened Visits

  /** Parsing the printed text gives a tree that means the same. */
  predicate ComesBack(hash: string -> nat, fmt: string -> string, v: Node) {
    match Parse(hash, Stringify(fmt, v))
    case Tree(w) => Meaning(w) == Meaning(v)
    case _ => false
  }

  /** The trees that come back: what the lexer can produce, with commas where they belong and no put lost,
      nested at most 32 deep. */
  predicate Printable(hash: string -> nat, v: Node) {
    Lexable(v) && CommasRight(v) && AllFresh(hash, v) && Height(v) <= MAX_NESTING
  }

  lemma {:induction false} SpelledBuilt(hash: string -> nat, v: Node)
    ensures Built(hash, Spelled(v)) == Built(hash, v)
    decreases v, 1
  {
    hide Kept;
    match v
    case Arr(elems) =>
      forall i | 0 <= i < |elems| ensures Built(hash, Spelled(elems[i])) == Built(hash, elems[i]) {
        SpelledBuilt(hash, elems[i]);
      }
      assert BuiltElems(hash, SpelledElems(elems)) == BuiltElems(hash, elems);
    case Obj(members, _) =>
      forall i | 0 <= i < |members| ensures Built(hash, Spelled(members[i].value)) == Built(hash, members[i].value) {
        SpelledBuilt(hash, members[i].value);
      }
      assert BuiltMembers(hash, SpelledMembers(members)) == BuiltMembers(hash, members);
    case _ =>
  }

  /** What the parser makes of the text of a lexable tree. */
  lemma {:induction false} ParsesText(hash: string -> nat, fmt: string -> string, v: Node)
    requires Lexable(v)
    ensures Parse(hash, Stringify(fmt, v))
            == if CommasRight(v) && Height(v) <= MAX_NESTING then Tree(Built(hash, v)) else Refused
  {
    hide Lexable, CommasRight, Height, Built, Spelled, Lex, Stringify, PrintedToks, Analyze;
    LexesWhole(fmt, v);
    PrintedExact(v, [Eof], 0);
    SpelledBuilt(hash, v);
  }

  /** Every tree the parser returns is lexable and within the nesting bound, or is the single float that
      ends a text with a dot. */
  lemma {:induction false} ParsesLexable(hash: string -> nat, text: string)
    requires Parse(hash, text).Tree?
    ensures var v := Parse(hash, text).root;
            (v.Float? && EndsInDot(text)) || (Lexable(v) && Height(v) <= MAX_NESTING)
  {
    hide Lex, Toks, Lexable, Height, Built, Analyze, LexableTok, EndsInDot;
    var ts := Lex(text).tokens;
    LexImage(text);
    AnalyzeSound(ts, 0);
    var (v, rest) := Analyze(ts, 0).value;
    LeavesEof(ts, 0);
    BuiltKeeps(hash, v);
    LastTok(hash, v);
    var toks := Toks(v);
    assert forall i :: 0 <= i < |toks| ==> ts[i] == toks[i];
    assert Lex(text).Lexed?;
    assert forall i :: 0 <= i < |ts| ==> LexableTok(ts[i]) || (ts[i].FloatTok? && i == |ts| - 2);
    AllButLast(toks, ts);
    if LexableTok(toks[|toks| - 1]) {
      LexableByToks(v);
    }
  }

  lemma {:induction false} AllButLast(toks: seq<Token>, ts: seq<Token>)
    requires 0 < |toks| < |ts| && forall i :: 0 <= i < |toks| ==> ts[i] == toks[i]
    requires forall i :: 0 <= i < |ts| ==> LexableTok(ts[i]) || (ts[i].FloatTok? && i == |ts| - 2)
    ensures LexableTok(toks[|toks| - 1]) ==> forall t :: t in toks ==> LexableTok(t)
    ensures LexableTok(toks[|toks| - 1]) || toks[|toks| - 1].FloatTok?
  {
    hide LexableTok;
    if LexableTok(toks[|toks| - 1]) {
      forall t | t in toks ensures LexableTok(t) {
        var i :| 0 <= i < |toks| && toks[i] == t;
        assert ts[i] == t;
      }
    }
  }

  /** A value that ends in a float is that float. */
  lemma {:induction false} LastTok(hash: string -> nat, v: Node)
    ensures Toks(v)[|Toks(v)| - 1].FloatTok? ==> v.Float? && Built(hash, v) == v
  {
    NoTokens();
  }

  /** The text round trip gives a tree back, as a tree of bags, exactly when its integers are not negative,
      its strings hold no quote and only paired backslashes, it holds no float, its counters put commas
      between the bindings only, no binding is lost when the bindings are put again in the order they are
      printed in, and it is nested at most 32 deep. */
  lemma {:induction false} RoundTripExact(hash: string -> nat, fmt: string -> string, v: Node)
    ensures ComesBack(hash, fmt, v) <==> Printable(hash, v)
  {
    hide Lexable, CommasRight, Height, Built, Parse, Stringify, AllFresh, Meaning;
    if ComesBack(hash, fmt, v) {
      var w := Parse(hash, Stringify(fmt, v)).root;
      EndsInBreak(fmt, v);
      ParsesLexable(hash, Stringify(fmt, v));
      MeaningKeeps(v, w);
    }
    if Lexable(v) {
      ParsesText(hash, fmt, v);
      BuiltExact(hash, v);
    }
  }

  lemma {:induction false} EndsInBreak(fmt: string -> string, v: Node)
    ensures !EndsInDot(Stringify(fmt, v))
  {
    hide Text;
  }

  /** In particular every tree whose objects are maps comes back: distinct keys, with hashes other than 0,
      and exact counters. */
  lemma {:induction false} MapsComeBack(hash: string -> nat, fmt: string -> string, v: Node)
    requires Lexable(v) && NoOverwrites(v) && AllKeys(hash, v) && Height(v) <= MAX_NESTING
    ensures ComesBack(hash, fmt, v)
  {
    hide ComesBack, Lexable, NoOverwrites, Height, AllKeys, AllFresh, CommasRight;
    KeysFresh(hash, v);
    CountedCommas(v);
    RoundTripExact(hash, fmt, v);
  }

  lemma {:induction false} CountedCommas(v: Node)
    requires NoOverwrites(v)
    ensures CommasRight(v)
  {
    match v
    case Arr(elems) =>
      forall i | 0 <= i < |elems| ensures CommasRight(elems[i]) {
        CountedCommas(elems[i]);
      }
    case Obj(members, _) =>
      forall i | 0 <= i < |members| ensures CommasRight(members[i].value) {
        CountedCommas(members[i].value);
      }
    case _ =>
  }

  /** A parsed tree comes back from its own text exactly when its commas are right and no binding is lost
      when the bindings are put again in the order they are visited in. */
  lemma {:induction false} ReparseStable(hash: string -> nat, fmt: string -> string, text: string)
    requires Parse(hash, text).Tree? && !Parse(hash, text).root.Float?
    ensures var v := Parse(hash, text).root;
            ComesBack(hash, fmt, v) <==> CommasRight(v) && AllFresh(hash, v)
  {
    hide ComesBack, Parse, Lexable, Height, AllFresh, CommasRight;
    ParsesLexable(hash, text);
    RoundTripExact(hash, fmt, Parse(hash, text).root);
  }

  /** The objects built of members with distinct keys, with hashes other than 0, are maps again. */
  lemma {:induction false} BuiltMaps(hash: string -> nat, v: Node)
    requires AllKeys(hash, v)
    ensures AllKeys(hash, Built(hash, v)) && NoOverwrites(Built(hash, v))
  {
    hide Kept;
    match v
    case Arr(elems) =>
      var built := BuiltElems(hash, elems);
      forall i | 0 <= i < |elems| ensures AllKeys(hash, built[i]) && NoOverwrites(built[i]) {
        BuiltMaps(hash, elems[i]);
      }
    case Obj(members, _) =>
      var built := BuiltMembers(hash, members);
      forall i | 0 <= i < |members| ensures AllKeys(hash, built[i].value) && NoOverwrites(built[i].value) {
        BuiltMaps(hash, members[i].value);
      }
      KeptMap(hash, built);
    case _ =>
  }

  lemma {:induction false} KeptMap(hash: string -> nat, ms: seq<Member>)
    requires forall i :: 0 <= i < |ms| ==> hash(ms[i].key) != 0 && AllKeys(hash, ms[i].value) && NoOverwrites(ms[i].value)
    requires forall i, j :: 0 <= i < j < |ms| ==> ms[i].key != ms[j].key
    ensures AllKeys(hash, Obj(Kept(hash, ms), |ms|)) && NoOverwrites(Obj(Kept(hash, ms), |ms|))
  {
    hide Visit, Fresh, Pick;
    var ix, kept := Visit(hash, Keys(ms)), Kept(hash, ms);
    DistinctFresh(hash, Keys(ms));
    VisitsOnce(hash, Keys(ms));
    forall p, q | 0 <= p < q < |kept| ensures kept[p].key != kept[q].key {
      assert ix[p] != ix[q] && kept[p] == ms[ix[p]] && kept[q] == ms[ix[q]];
      assert if ix[p] < ix[q] then ms[ix[p]].key != ms[ix[q]].key else ms[ix[q]].key != ms[ix[p]].key;
    }
  }

  /** The value that a text spells. */
  function SpelledIn(text: string): Option<Node> {
    match Lex(text)
    case Endless => None
    case Lexed(ts) =>
      if ts == [] || ts[|ts| - 1] != Eof then None
      else match Analyze(ts, 0)
        case None => None
        case Some((v, _)) => Some(v)
  }

  /** A text whose objects have distinct keys, with hashes other than 0, is parsed to what it spells, and that
      comes back from its own text: the slot order of a printed object is put again without a loss. */
  lemma {:induction false} MapsReparse(hash: string -> nat, fmt: string -> string, text: string)
    requires SpelledIn(text).Some? && !SpelledIn(text).value.Float? && AllKeys(hash, SpelledIn(text).value)
    ensures var v := SpelledIn(text).value;
            Parse(hash, text).Tree? && Meaning(Parse(hash, text).root) == Meaning(v)
            && ComesBack(hash, fmt, Parse(hash, text).root)
  {
    hide ComesBack, Lexable, Height, AllFresh, CommasRight, AllKeys, NoOverwrites, Lex, Analyze, Meaning, EndsInDot;
    var v := SpelledIn(text).value;
    NotFloat(hash, v);
    BuiltMaps(hash, v);
    KeysFresh(hash, v);
    BuiltExact(hash, v);
    KeysFresh(hash, Built(hash, v));
    CountedCommas(Built(hash, v));
    ReparseStable(hash, fmt, text);
  }

  lemma {:induction false} NotFloat(hash: string -> nat, v: Node)
    ensures Built(hash, v).Float? <==> v.Float?
  {
  }
}
