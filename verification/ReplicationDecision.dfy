/** Replication decisions (cmd/bucket-replication-utils.go): a map from target ARN to
    decision, printed in whatever order the map is iterated, and parsed by splitting. */
module ReplicationDecision {
  import opened Basics

  // ----- String functions of the source's library

  /** strings.Split for a one-character separator. */
  function Split(s: string, c: char): (r: seq<string>)
    ensures r != []
  {
    if s == [] then [[]]
    else
      var rest := Split(s[1..], c);
      if s[0] == c then [[]] + rest else [[s[0]] + rest[0]] + rest[1..]
  }

  function TrimSuffix(s: string, c: char): string {
    if s != [] && s[|s| - 1] == c then s[..|s| - 1] else s
  }

  function TrimPrefix(s: string, c: char): string {
    if s != [] && s[0] == c then s[1..] else s
  }

  /** strconv.ParseBool */
  function ParseBool(s: string): Option<bool> {
    if s in {"1", "t", "T", "TRUE", "true", "True"} then Some(true)
    else if s in {"0", "f", "F", "FALSE", "false", "False"} then Some(false)
    else None
  }

  function PrintBool(b: bool): string {
    if b then "true" else "false"
  }

  lemma {:induction false} SplitPieces(s: string, c: char)
    ensures forall p :: p in Split(s, c) ==> c !in p
    ensures forall p, x :: p in Split(s, c) && x in p ==> x in s
  {
    if s != [] {
      SplitPieces(s[1..], c);
      var rest := Split(s[1..], c);
      assert rest[0] in rest;
      forall p | p in Split(s, c)
        ensures c !in p && forall x :: x in p ==> x in s
      {
        if p in rest {
        } else if s[0] == c {
          assert p == [];
        } else {
          assert p == [s[0]] + rest[0];
        }
      }
    }
  }

  lemma {:induction false} SplitWhole(s: string, c: char)
    requires c !in s
    ensures Split(s, c) == [s]
  {
    if s != [] {
      SplitWhole(s[1..], c);
      assert s == [s[0]] + s[1..];
    }
  }

  lemma {:induction false} SplitFirst(a: string, c: char, b: string)
    requires c !in a
    ensures Split(a + [c] + b, c) == [a] + Split(b, c)
  {
    var s := a + [c] + b;
    if a == [] {
      assert s[0] == c && s[1..] == b;
    } else {
      SplitFirst(a[1..], c, b);
      assert s[0] == a[0] && s[1..] == a[1..] + [c] + b;
      assert a == [a[0]] + a[1..];
    }
  }

  // ----- One target

  datatype Target = Target(replicate: bool, synchronous: bool, arn: string, id: string)

  function PrintTarget(t: Target): string {
    PrintBool(t.replicate) + ";" + (PrintBool(t.synchronous) + ";" + (t.arn + ";" + t.id))
  }

  function PrintPair(key: string, t: Target): string {
    key + "=" + PrintTarget(t)
  }

  function ParseTarget(s: string): Option<Target> {
    var tgt := Split(s, ';');
    if |tgt| != 4 || ParseBool(tgt[0]).None? || ParseBool(tgt[1]).None? then None
    else Some(Target(ParseBool(tgt[0]).value, ParseBool(tgt[1]).value, tgt[2], tgt[3]))
  }

  function ParsePair(p: string): Option<(string, Target)> {
    var slc := Split(p, '=');
    if |slc| != 2 then None
    else
      var t := ParseTarget(TrimSuffix(TrimPrefix(slc[1], '"'), '"'));
      if t.None? then None else Some((slc[0], t.value))
  }

  predicate FreeOf(s: string, cs: set<char>) {
    forall x :: x in s ==> x !in cs
  }

  const SEPARATORS: set<char> := {',', '=', ';'}

  /** No separator where the parser would take it for its own. */
  predicate CharClean(key: string, t: Target) {
    FreeOf(key, {',', '='}) && FreeOf(t.arn, SEPARATORS) && FreeOf(t.id, SEPARATORS)
  }

  predicate EndsInQuote(s: string) {
    s != [] && s[|s| - 1] == '"'
  }

  /** The decision with one trailing quote of the id cut off, as the parser does. */
  function Unquoted(t: Target): Target {
    t.(id := TrimSuffix(t.id, '"'))
  }

  lemma TargetRoundTrip(t: Target)
    requires FreeOf(t.arn, SEPARATORS) && FreeOf(t.id, SEPARATORS)
    ensures ParseTarget(PrintTarget(t)) == Some(t)
  {
    var r, s := PrintBool(t.replicate), PrintBool(t.synchronous);
    SplitFirst(r, ';', s + ";" + (t.arn + ";" + t.id));
    SplitFirst(s, ';', t.arn + ";" + t.id);
    SplitFirst(t.arn, ';', t.id);
    SplitWhole(t.id, ';');
    assert ParseBool(r) == Some(t.replicate) && ParseBool(s) == Some(t.synchronous);
    hide Split, PrintBool, ParseBool, FreeOf;
    assert Split(PrintTarget(t), ';') == [r] + ([s] + ([t.arn] + [t.id]));
  }

  /** Everything before the id. */
  function TargetHead(t: Target): string {
    PrintBool(t.replicate) + ";" + (PrintBool(t.synchronous) + ";" + (t.arn + ";"))
  }

  lemma HeadAndId(t: Target)
    ensures PrintTarget(t) == TargetHead(t) + t.id
  {
    var r, s := PrintBool(t.replicate) + ";", PrintBool(t.synchronous) + ";";
    hide PrintBool;
    Assoc(r, s + (t.arn + ";"), t.id);
    Assoc(s, t.arn + ";", t.id);
  }

  lemma TrimConcat(head: string, id: string)
    requires head != [] && head[0] != '"' && head[|head| - 1] != '"'
    ensures TrimSuffix(TrimPrefix(head + id, '"'), '"') == head + TrimSuffix(id, '"')
  {
    if EndsInQuote(id) {
      assert (head + id)[..|head + id| - 1] == head + id[..|id| - 1];
    }
  }

  lemma PrintedTarget(t: Target)
    ensures TrimSuffix(TrimPrefix(PrintTarget(t), '"'), '"') == PrintTarget(Unquoted(t))
  {
    HeadAndId(t);
    HeadAndId(Unquoted(t));
    TrimConcat(TargetHead(t), t.id);
    hide PrintTarget, TrimSuffix;
  }

  lemma TargetFreeOf(t: Target)
    requires FreeOf(t.arn, SEPARATORS) && FreeOf(t.id, SEPARATORS)
    ensures FreeOf(PrintTarget(t), {',', '='})
  {
    var r, s := PrintBool(t.replicate), PrintBool(t.synchronous);
    assert forall x :: x in PrintTarget(t) ==> x in r || x in s || x in t.arn || x in t.id || x == ';';
  }

  lemma PairIsOnePiece(key: string, t: Target)
    requires CharClean(key, t)
    ensures ',' !in PrintPair(key, t)
  {
    TargetFreeOf(t);
    hide PrintTarget;
    assert forall x :: x in PrintPair(key, t) ==> x in key || x == '=' || x in PrintTarget(t);
  }

  lemma PairRoundTrip(key: string, t: Target)
    requires CharClean(key, t)
    ensures ParsePair(PrintPair(key, t)) == Some((key, Unquoted(t)))
  {
    var body := PrintTarget(t);
    TargetFreeOf(t);
    PrintedTarget(t);
    TargetRoundTrip(Unquoted(t));
    assert '=' !in key && '=' !in body;
    hide PrintTarget, Split, ParseTarget, TrimSuffix, TrimPrefix, FreeOf, CharClean, Unquoted;
    SplitFirst(key, '=', body);
    SplitWhole(body, '=');
    assert Split(PrintPair(key, t), '=') == [key] + [body];
  }

  /** Whatever is parsed holds no separator in the wrong place. */
  lemma ParsedPairIsClean(p: string)
    requires ',' !in p && ParsePair(p).Some?
    ensures CharClean(ParsePair(p).value.0, ParsePair(p).value.1)
  {
    var slc := Split(p, '=');
    SplitPieces(p, '=');
    assert slc[0] in slc && slc[1] in slc;
    var s := TrimSuffix(TrimPrefix(slc[1], '"'), '"');
    assert forall x :: x in s ==> x in slc[1];
    SplitPieces(s, ';');
    var tgt := Split(s, ';');
    assert tgt[2] in tgt && tgt[3] in tgt;
  }

  // ----- What a pair looks like

  lemma {:induction false} SplitPeel(s: string, c: char) returns (a: string, b: string)
    requires |Split(s, c)| > 1
    ensures s == a + [c] + b && c !in a && Split(s, c) == [a] + Split(b, c)
  {
    if s[0] == c {
      a, b := [], s[1..];
    } else {
      a, b := SplitPeel(s[1..], c);
      assert s == [s[0]] + s[1..];
      a := [s[0]] + a;
    }
  }

  lemma {:induction false} SplitSingle(s: string, c: char)
    requires |Split(s, c)| == 1
    ensures Split(s, c) == [s] && c !in s
  {
    if s != [] {
      SplitSingle(s[1..], c);
      assert s == [s[0]] + s[1..];
    }
  }

  /** The accepted spellings of a boolean. */
  predicate Spells(s: string, b: bool) {
    if b then s == "1" || s == "t" || s == "T" || s == "TRUE" || s == "true" || s == "True"
    else s == "0" || s == "f" || s == "F" || s == "FALSE" || s == "false" || s == "False"
  }

  /** The text of a target: replicate, synchronous, ARN and id, between semicolons. */
  ghost predicate IsTargetText(s: string, t: Target) {
    exists replicate, synchronous ::
      && Spells(replicate, t.replicate) && Spells(synchronous, t.synchronous)
      && ';' !in t.arn && ';' !in t.id
      && s == replicate + ";" + (synchronous + ";" + (t.arn + ";" + t.id))
  }

  lemma SpellsExactly(s: string, b: bool)
    ensures ParseBool(s) == Some(b) <==> Spells(s, b)
    ensures Spells(s, b) ==> ';' !in s
  {
  }

  lemma ParseTargetExactly(s: string, t: Target)
    ensures ParseTarget(s) == Some(t) <==> IsTargetText(s, t)
  {
    if ParseTarget(s) == Some(t) {
      var a, r1 := SplitPeel(s, ';');
      var b, r2 := SplitPeel(r1, ';');
      var c, d := SplitPeel(r2, ';');
      hide Split, ParseBool, Spells;
      SplitSingle(d, ';');
      SpellsExactly(a, t.replicate);
      SpellsExactly(b, t.synchronous);
      assert s == a + ";" + (b + ";" + (t.arn + ";" + t.id));
    }
    if IsTargetText(s, t) {
      var a, b :| Spells(a, t.replicate) && Spells(b, t.synchronous) && s == a + ";" + (b + ";" + (t.arn + ";" + t.id));
      hide Split, ParseBool, Spells;
      SpellsExactly(a, t.replicate);
      SpellsExactly(b, t.synchronous);
      SplitFirst(a, ';', b + ";" + (t.arn + ";" + t.id));
      SplitFirst(b, ';', t.arn + ";" + t.id);
      SplitFirst(t.arn, ';', t.id);
      SplitWhole(t.id, ';');
    }
  }

  /** A pair is accepted exactly when it is a key and the text of a target, perhaps in quotes,
      with one equals sign between them. */
  lemma ParsePairExactly(p: string, key: string, t: Target)
    ensures ParsePair(p) == Some((key, t)) <==>
            exists text :: p == key + "=" + text && '=' !in key && '=' !in text && IsTargetText(TrimSuffix(TrimPrefix(text, '"'), '"'), t)
  {
    if ParsePair(p) == Some((key, t)) {
      var a, text := SplitPeel(p, '=');
      hide Split, ParseTarget, IsTargetText;
      SplitSingle(text, '=');
      ParseTargetExactly(TrimSuffix(TrimPrefix(text, '"'), '"'), t);
    }
    if text :| p == key + "=" + text && '=' !in key && '=' !in text && IsTargetText(TrimSuffix(TrimPrefix(text, '"'), '"'), t) {
      hide Split, ParseTarget, IsTargetText;
      SplitFirst(key, '=', text);
      SplitWhole(text, '=');
      ParseTargetExactly(TrimSuffix(TrimPrefix(text, '"'), '"'), t);
    }
  }

  /** A target is printed with the spellings "true" and "false". */
  lemma PrintedText(key: string, t: Target)
    ensures PrintPair(key, t) ==
            key + "=" + ((if t.replicate then "true" else "false") + ";" + ((if t.synchronous then "true" else "false") + ";" + (t.arn + ";" + t.id)))
  {
  }

  // ----- Whole decisions

  type Decision = map<string, Target>

  /** Each key of the map once, in the order the iteration happens to take. */
  ghost predicate IsOrder(order: seq<string>, m: Decision) {
    && (forall k :: k in order <==> k in m)
    && (forall i, j :: 0 <= i < j < |order| ==> order[i] != order[j])
  }

  /** What the printing loop has written after visiting the keys of `order`. */
  function Written(m: Decision, order: seq<string>): string
    requires forall k :: k in order ==> k in m
  {
    if order == [] then []
    else Written(m, order[..|order| - 1]) + (PrintPair(order[|order| - 1], m[order[|order| - 1]]) + ",")
  }

  function Print(m: Decision, order: seq<string>): string
    requires forall k :: k in order ==> k in m
  {
    TrimSuffix(Written(m, order), ',')
  }

  datatype ParseResult = Parsed(decision: Decision) | InvalidFormat

  function ParsePairs(pairs: seq<string>): ParseResult {
    if pairs == [] then Parsed(map[])
    else
      match ParsePairs(pairs[..|pairs| - 1])
      case InvalidFormat => InvalidFormat
      case Parsed(m) =>
        var kv := ParsePair(pairs[|pairs| - 1]);
        if kv.None? then InvalidFormat else Parsed(m[kv.value.0 := kv.value.1])
  }

  function Parse(s: string): ParseResult {
    if s == [] then Parsed(map[]) else ParsePairs(Split(s, ','))
  }

  // Splitting what was printed

  function Pairs(m: Decision, order: seq<string>): seq<string>
    requires forall k :: k in order ==> k in m
  {
    seq(|order|, i requires 0 <= i < |order| => PrintPair(order[i], m[order[i]]))
  }

  ghost predicate AllCharClean(m: Decision) {
    forall k :: k in m ==> CharClean(k, m[k])
  }

  lemma {:induction false} SplitConcat(a: string, c: char, b: string)
    requires c !in b
    ensures Split(a + [c] + b, c) == Split(a, c) + [b]
  {
    var s := a + [c] + b;
    if a == [] {
      SplitWhole(b, c);
      assert s[1..] == b && [[]] + [b] == [[], b];
    } else {
      SplitConcat(a[1..], c, b);
      assert s[0] == a[0] && s[1..] == a[1..] + [c] + b;
      var rest := Split(a[1..], c);
      assert (rest + [b])[0] == rest[0] && (rest + [b])[1..] == rest[1..] + [b];
    }
  }

  lemma WrittenNext(m: Decision, order: seq<string>, key: string)
    requires key in m && forall k :: k in order ==> k in m
    ensures Written(m, order + [key]) == Written(m, order) + (PrintPair(key, m[key]) + ",")
  {
    assert (order + [key])[..|order|] == order;
  }

  lemma TrimComma(s: string)
    ensures TrimSuffix(s + ",", ',') == s
  {
    assert (s + ",")[..|s|] == s;
  }

  /** The last comma is all that trimming takes off. */
  lemma PrintTrims(m: Decision, order: seq<string>, key: string)
    requires key in m && forall k :: k in order ==> k in m
    ensures Print(m, order + [key]) == Written(m, order) + PrintPair(key, m[key])
    ensures Print(m, order + [key]) + "," == Written(m, order + [key])
  {
    WrittenNext(m, order, key);
    hide Written, PrintPair;
    var pair, w := PrintPair(key, m[key]), Written(m, order);
    Assoc(w, pair, ",");
    TrimComma(w + pair);
  }

  /** A key more: its pair, after a comma unless it is the first. */
  lemma PrintNext(m: Decision, order: seq<string>, key: string)
    requires key in m && forall k :: k in order ==> k in m
    ensures var pair := PrintPair(key, m[key]);
            Print(m, order + [key]) == if order == [] then pair else Print(m, order) + [','] + pair
    ensures Print(m, order + [key]) + "," == Written(m, order + [key])
  {
    hide Written, PrintPair, Print;
    PrintTrims(m, order, key);
    if order == [] {
      NothingWritten(m);
      assert "" + PrintPair(key, m[key]) == PrintPair(key, m[key]);
    } else {
      var n := |order| - 1;
      assert order[n] in order && order == order[..n] + [order[n]];
      PrintTrims(m, order[..n], order[n]);
    }
  }

  lemma PairsNext(m: Decision, order: seq<string>, key: string)
    requires key in m && forall k :: k in order ==> k in m
    ensures Pairs(m, order + [key]) == Pairs(m, order) + [PrintPair(key, m[key])]
  {
    hide PrintPair;
  }

  lemma {:induction false} PrintSplits(m: Decision, order: seq<string>)
    requires order != [] && (forall k :: k in order ==> k in m) && AllCharClean(m)
    ensures Print(m, order) != [] && Split(Print(m, order), ',') == Pairs(m, order)
  {
    var n := |order| - 1;
    var before, k := order[..n], order[n];
    assert k in order && order == before + [k];
    var pair := PrintPair(k, m[k]);
    assert pair != [];
    PairIsOnePiece(k, m[k]);
    hide PrintPair, CharClean;
    PairsNext(m, before, k);
    PrintNext(m, before, k);
    hide Print, Split;
    if n == 0 {
      SplitWhole(pair, ',');
      assert Pairs(m, before) == [] && [] + [pair] == [pair];
    } else {
      PrintSplits(m, before);
      SplitConcat(Print(m, before), ',', pair);
    }
  }

  // The round trip

  /** The decision as the parser gives it back. */
  function AllUnquoted(m: Decision, keys: set<string>): Decision
    requires keys <= m.Keys
  {
    map k | k in keys :: Unquoted(m[k])
  }

  lemma ParseNext(pairs: seq<string>, m: Decision, p: string, k: string, t: Target)
    requires ParsePairs(pairs) == Parsed(m) && ParsePair(p) == Some((k, t))
    ensures ParsePairs(pairs + [p]) == Parsed(m[k := t])
  {
    assert (pairs + [p])[..|pairs|] == pairs;
    hide ParsePair;
  }

  lemma UnquotedNext(m: Decision, keys: set<string>, k: string)
    requires keys <= m.Keys && k in m
    ensures AllUnquoted(m, keys + {k}) == AllUnquoted(m, keys)[k := Unquoted(m[k])]
  {
    hide Unquoted;
  }

  lemma {:induction false} PairsParse(m: Decision, order: seq<string>)
    requires (forall k :: k in order ==> k in m) && AllCharClean(m)
    ensures ParsePairs(Pairs(m, order)) == Parsed(AllUnquoted(m, set k | k in order))
  {
    if order != [] {
      var n := |order| - 1;
      var before, k := order[..n], order[n];
      assert k in order && order == before + [k];
      var keys := set x | x in before;
      assert (set x | x in order) == keys + {k};
      assert CharClean(k, m[k]);
      hide PrintPair, ParsePair, Unquoted, CharClean, ParsePairs, AllUnquoted, Pairs;
      PairsParse(m, before);
      PairRoundTrip(k, m[k]);
      PairsNext(m, before, k);
      UnquotedNext(m, keys, k);
      ParseNext(Pairs(m, before), AllUnquoted(m, keys), PrintPair(k, m[k]), k, Unquoted(m[k]));
    }
  }

  /** Printing in any order and parsing gives back the same map, except that one quote at
      the end of an id is lost. */
  lemma CharCleanRoundTrip(m: Decision, order: seq<string>)
    requires IsOrder(order, m) && AllCharClean(m)
    ensures Parse(Print(m, order)) == Parsed(AllUnquoted(m, m.Keys))
  {
    assert (set k | k in order) == m.Keys;
    if order == [] {
      assert m.Keys == {};
      assert AllUnquoted(m, {}) == map[];
    } else {
      PrintSplits(m, order);
      PairsParse(m, order);
    }
  }

  lemma {:induction false} ParsedIsClean(pairs: seq<string>)
    requires forall p :: p in pairs ==> ',' !in p
    ensures ParsePairs(pairs).Parsed? ==> AllCharClean(ParsePairs(pairs).decision)
  {
    if pairs != [] {
      var p := pairs[|pairs| - 1];
      assert p in pairs;
      ParsedIsClean(pairs[..|pairs| - 1]);
      if ParsePair(p).Some? {
        ParsedPairIsClean(p);
      }
    }
  }

  ghost predicate Clean(m: Decision) {
    AllCharClean(m) && forall k :: k in m ==> !EndsInQuote(m[k].id)
  }

  /** A decision survives printing, in any iteration order, and parsing exactly when its
      keys hold neither ',' nor '=', its ARNs and ids none of ',' '=' ';', and no id ends in
      a quote. */
  lemma RoundTripExact(m: Decision, order: seq<string>)
    requires IsOrder(order, m)
    ensures Parse(Print(m, order)) == Parsed(m) <==> Clean(m)
  {
    if AllCharClean(m) {
      CharCleanRoundTrip(m, order);
      hide Parse, Print, AllCharClean;
      if Clean(m) {
        assert forall k :: k in m ==> Unquoted(m[k]) == m[k];
        assert AllUnquoted(m, m.Keys) == m;
      } else {
        var k :| k in m && EndsInQuote(m[k].id);
        assert |Unquoted(m[k]).id| < |m[k].id|;
        assert AllUnquoted(m, m.Keys)[k] != m[k];
      }
    } else {
      var s := Print(m, order);
      SplitPieces(s, ',');
      ParsedIsClean(Split(s, ','));
    }
  }

  // ----- The loops of the source

  /** Printing: the map is visited in an order nobody chose. */
  method PrintDecision(m: Decision) returns (s: string)
    ensures exists order :: IsOrder(order, m) && s == Print(m, order)
  {
    var b := "";
    ghost var order := [];
    var rest := m.Keys;
    hide Written, PrintPair;
    assert Written(m, []) == "" by { NothingWritten(m); }
    while rest != {}
      invariant rest <= m.Keys && (forall k :: k in order <==> k in m.Keys - rest)
      invariant forall i, j :: 0 <= i < j < |order| ==> order[i] != order[j]
      invariant b == Written(m, order)
      decreases rest
    {
      var key :| key in rest;
      b := b + (PrintPair(key, m[key]) + ",");
      WrittenNext(m, order, key);
      assert key !in order;
      order := order + [key];
      rest := rest - {key};
    }
    s := TrimSuffix(b, ',');
    assert IsOrder(order, m) && s == Print(m, order);
  }

  lemma NothingWritten(m: Decision)
    ensures Written(m, []) == ""
  {
  }

  method ParseDecision(s: string) returns (r: ParseResult)
    ensures r == Parse(s)
    ensures s == "" ==> r == Parsed(map[])
    ensures s != "" ==> (r == InvalidFormat <==> exists p :: p in Split(s, ',') && ParsePair(p).None?)
    ensures s != "" && r.Parsed? ==> forall k :: k in r.decision ==> exists p :: p in Split(s, ',') && ParsePair(p) == Some((k, r.decision[k]))
  {
    var targets: Decision := map[];
    if |s| == 0 {
      return Parsed(targets);
    }
    var pairs := Split(s, ',');
    assert ParsePairs(pairs[..0]) == Parsed(map[]);
    for i := 0 to |pairs|
      invariant ParsePairs(pairs[..i]) == Parsed(targets)
    {
      var kv := ParsePair(pairs[i]);
      assert pairs[..i + 1][..i] == pairs[..i];
      if kv.None? {
        InvalidStays(pairs, i + 1);
        assert pairs[i] in pairs;
        return InvalidFormat;
      }
      targets := targets[kv.value.0 := kv.value.1];
    }
    assert pairs[..|pairs|] == pairs;
    ParsedPairs(pairs);
    return Parsed(targets);
  }

  lemma {:induction false} ParsedPairs(pairs: seq<string>)
    ensures ParsePairs(pairs).Parsed? ==> forall p :: p in pairs ==> ParsePair(p).Some?
    ensures ParsePairs(pairs).Parsed? ==>
              forall k :: k in ParsePairs(pairs).decision ==> exists p :: p in pairs && ParsePair(p) == Some((k, ParsePairs(pairs).decision[k]))
  {
    if pairs != [] {
      var n := |pairs| - 1;
      ParsedPairs(pairs[..n]);
      assert pairs == pairs[..n] + [pairs[n]];
      hide ParsePair;
    }
  }

  lemma {:induction false} InvalidStays(pairs: seq<string>, i: nat)
    requires i <= |pairs| && ParsePairs(pairs[..i]).InvalidFormat?
    ensures ParsePairs(pairs).InvalidFormat?
    decreases |pairs|
  {
    if i == |pairs| {
      assert pairs[..i] == pairs;
    } else {
      assert pairs[..|pairs| - 1][..i] == pairs[..i];
      InvalidStays(pairs[..|pairs| - 1], i);
    }
  }
}
