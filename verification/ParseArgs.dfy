/** Splitting an argument line in place (library/src/static.c): a first pass counts the arguments and zeroes the spaces and
    quotes around them, and a second pass finds the arguments again between the zeros. */
module ParseArgs {
  import opened Collections

  /** One argument: where it starts, and where the terminator behind it goes. */
  datatype Token = Token(start: nat, end: nat)
  datatype Extracted = NoArg | Arg(token: Token, next: nat)

  // ---------- what the arguments of a line are ----------

  /** The first place from `p` on with character `c`, or the end. */
  function Find(s: string, p: nat, c: char): (q: nat)
    requires p <= |s|
    ensures p <= q <= |s| && (q < |s| ==> s[q] == c) && forall i :: p <= i < q ==> s[i] != c
    decreases |s| - p
  {
    if p == |s| || s[p] == c then p else Find(s, p + 1, c)
  }

  function SkipSpaces(s: string, p: nat): (q: nat)
    requires p <= |s|
    ensures p <= q <= |s| && (q < |s| ==> s[q] != ' ') && forall i :: p <= i < q ==> s[i] == ' '
    decreases |s| - p
  {
    if p == |s| || s[p] != ' ' then p else SkipSpaces(s, p + 1)
  }

  /** Parsing goes on behind the character that ends an argument, or at the end of the line. */
  predicate Behind(s: string, end: nat, next: nat) {
    next == end + 1 || next == end == |s|
  }

  /** The next argument: up to the closing quote, or up to the next space or the end. A quote that is never closed ends the
      list. */
  function Extract(s: string, p: nat): (x: Extracted)
    requires p <= |s|
    ensures x.Arg? ==> p <= x.token.start <= x.token.end <= |s| && p < x.next <= |s| && Behind(s, x.token.end, x.next)
  {
    ExtractAt(s, SkipSpaces(s, p))
  }

  function ExtractAt(s: string, q: nat): (x: Extracted)
    requires q <= |s| && (q < |s| ==> s[q] != ' ')
    ensures x.Arg? ==> q <= x.token.start <= x.token.end <= |s| && q < x.next <= |s| && Behind(s, x.token.end, x.next)
  {
    if q == |s| then NoArg
    else if s[q] == '"' then
      var e := Find(s, q + 1, '"');
      if e == |s| then NoArg else Arg(Token(q + 1, e), e + 1)
    else
      var e := Find(s, q, ' ');
      Arg(Token(q, e), if e < |s| then e + 1 else e)
  }

  function Tokens(s: string, p: nat): seq<Token>
    requires p <= |s|
    decreases |s| - p
  {
    match Extract(s, p)
    case NoArg => []
    case Arg(token, next) => [token] + Tokens(s, next)
  }

  /** Where the text behind a quote that is never closed starts, if no argument is found from `p` on; or else the end. */
  function TailAt(s: string, p: nat): (q: nat)
    requires p <= |s|
    ensures p <= q <= |s|
  {
    var q := SkipSpaces(s, p);
    if q < |s| then q + 1 else q
  }

  /** Where the text that no argument takes in starts. */
  function Tail(s: string, p: nat): (q: nat)
    requires p <= |s|
    ensures p <= q <= |s|
    decreases |s| - p
  {
    match Extract(s, p)
    case NoArg => TailAt(s, p)
    case Arg(token, next) => Tail(s, next)
  }

  function Args(s: string, p: nat): seq<string>
    requires p <= |s|
    decreases |s| - p
  {
    match Extract(s, p)
    case NoArg => []
    case Arg(token, next) => [s[token.start..token.end]] + Args(s, next)
  }

  lemma {:induction false} ArgsAreTokens(s: string, p: nat)
    requires p <= |s|
    ensures |Args(s, p)| == |Tokens(s, p)|
    ensures forall i :: 0 <= i < |Tokens(s, p)| ==> var t := Tokens(s, p)[i];
                                                    p <= t.start <= t.end <= |s| && Args(s, p)[i] == s[t.start..t.end]
    decreases |s| - p
  {
    match Extract(s, p)
    case NoArg =>
    case Arg(token, next) => ArgsAreTokens(s, next);
  }

  // ---------- lines made of given arguments ----------

  /** An argument as a user types it. */
  datatype Typed = Plain(text: string) | Quoted(text: string)

  predicate Typable(t: Typed) {
    match t
    case Plain(text) => text != [] && text[0] != '"' && forall i :: 0 <= i < |text| ==> text[i] != ' '
    case Quoted(text) => forall i :: 0 <= i < |text| ==> text[i] != '"'
  }

  function Length(t: Typed): nat {
    match t
    case Plain(text) => |text|
    case Quoted(text) => |text| + 2
  }

  predicate At(s: string, p: nat, w: string) {
    p + |w| <= |s| && forall i :: p <= i < p + |w| ==> s[i] == w[i - p]
  }

  /** A typed argument stands at `p`, and a space or the end behind it. */
  predicate TypedAt(s: string, p: nat, t: Typed) {
    var e := p + Length(t);
    && Typable(t) && e <= |s| && (e == |s| || s[e] == ' ')
    && match t
       case Plain(text) => At(s, p, text)
       case Quoted(text) => s[p] == s[e - 1] == '"' && At(s, p + 1, text)
  }

  /** Spaces stand from `p` to `q`. */
  predicate Blank(s: string, p: nat, q: nat) {
    p <= q <= |s| && forall i :: p <= i < q ==> s[i] == ' '
  }

  /** From `p` on the line is the arguments, with any number of spaces around them, and at its end maybe a quote that is never
      closed; `places` tells where they start. */
  predicate Line(s: string, p: nat, ts: seq<Typed>, places: seq<nat>, end: nat)
    requires p <= |s|
    decreases |ts|
  {
    if ts == [] || places == [] then
      ts == [] && places == [] && Blank(s, p, end) && (end == |s| || (s[end] == '"' && forall i :: end < i < |s| ==> s[i] != '"'))
    else
      && Blank(s, p, places[0]) && TypedAt(s, places[0], ts[0])
      && Line(s, places[0] + Length(ts[0]), ts[1..], places[1..], end)
  }

  lemma FindIs(s: string, p: nat, c: char, q: nat)
    requires p <= q <= |s| && (q < |s| ==> s[q] == c) && forall i :: p <= i < q ==> s[i] != c
    ensures Find(s, p, c) == q
  {
  }

  /** The first argument from `p` on is `w`, and stands at `token`. */
  predicate Cuts(s: string, p: nat, token: Token, next: nat, w: string) {
    p <= |s| && Extract(s, p) == Arg(token, next) && s[token.start..token.end] == w
  }

  lemma ExtractPlain(s: string, p: nat, text: string)
    requires TypedAt(s, p, Plain(text))
    ensures var e := p + |text|;
            e <= |s| && Cuts(s, p, Token(p, e), After(s, e), text)
  {
    var e := p + |text|;
    assert s[p] == text[0] && forall i :: p <= i < e ==> s[i] != ' ';
    FindIs(s, p, ' ', e);
    assert s[p..e] == text;
  }

  lemma ExtractQuoted(s: string, p: nat, text: string)
    requires TypedAt(s, p, Quoted(text))
    ensures var e := p + |text| + 2;
            e <= |s| && (e < |s| ==> s[e] == ' ') && Cuts(s, p, Token(p + 1, e - 1), e, text)
  {
    var e := p + |text| + 2;
    assert forall i :: p + 1 <= i < e - 1 ==> s[i] != '"';
    FindIs(s, p + 1, '"', e - 1);
    assert s[p + 1..e - 1] == text;
  }

  /** Spaces before an argument do not matter. */
  lemma ArgsSkip(s: string, p: nat, q: nat)
    requires p <= |s| && q <= |s| && SkipSpaces(s, p) == SkipSpaces(s, q)
    ensures Args(s, p) == Args(s, q)
  {
  }

  /** Where the argument behind one that ends at `e` is looked for. */
  function After(s: string, e: nat): (q: nat)
    requires e <= |s|
    ensures q <= |s|
  {
    if e < |s| then e + 1 else e
  }

  lemma AfterSpace(s: string, e: nat)
    requires e <= |s| && (e < |s| ==> s[e] == ' ')
    ensures Args(s, e) == Args(s, After(s, e))
  {
    ArgsSkip(s, e, After(s, e));
  }

  /** The first argument from `p` on is `w`, and the others are those from `q` on. */
  predicate Reads(s: string, p: nat, w: string, q: nat) {
    p <= |s| && q <= |s| && Args(s, p) == [w] + Args(s, q)
  }

  lemma ArgsRead(s: string, p: nat, token: Token, next: nat, w: string, q: nat)
    requires Cuts(s, p, token, next, w) && q <= |s| && Args(s, next) == Args(s, q)
    ensures Reads(s, p, w, q)
  {
  }

  lemma ArgsPlain(s: string, p: nat, text: string)
    requires TypedAt(s, p, Plain(text))
    ensures Reads(s, p, text, After(s, p + |text|))
  {
    var e := p + |text|;
    ExtractPlain(s, p, text);
    ArgsRead(s, p, Token(p, e), After(s, e), text, After(s, e));
  }

  lemma ArgsBeforeSpace(s: string, p: nat, token: Token, e: nat, w: string)
    requires Cuts(s, p, token, e, w) && e <= |s| && (e < |s| ==> s[e] == ' ')
    ensures Reads(s, p, w, After(s, e))
  {
    AfterSpace(s, e);
    ArgsRead(s, p, token, e, w, After(s, e));
  }

  lemma ArgsQuoted(s: string, p: nat, text: string)
    requires TypedAt(s, p, Quoted(text))
    ensures Reads(s, p, text, After(s, p + |text| + 2))
  {
    var e := p + |text| + 2;
    ExtractQuoted(s, p, text);
    ArgsBeforeSpace(s, p, Token(p + 1, e - 1), e, text);
  }

  lemma ArgsTyped(s: string, p: nat, t: Typed, e: nat)
    requires TypedAt(s, p, t) && e == p + Length(t)
    ensures Reads(s, p, t.text, After(s, e))
  {
    if t.Plain? {
      ArgsPlain(s, p, t.text);
    } else {
      ArgsQuoted(s, p, t.text);
    }
  }

  function Meant(ts: seq<Typed>): seq<string> {
    if ts == [] then [] else [ts[0].text] + Meant(ts[1..])
  }

  lemma {:induction false} SkipBlank(s: string, p: nat, q: nat)
    requires Blank(s, p, q)
    ensures SkipSpaces(s, p) == SkipSpaces(s, q)
    decreases q - p
  {
    if p < q {
      SkipBlank(s, p + 1, q);
    }
  }

  /** These are the arguments from `p` on. */
  predicate ParsesTo(s: string, p: nat, ws: seq<string>) {
    p <= |s| && Args(s, p) == ws
  }

  lemma LineEnds(s: string, p: nat, end: nat)
    requires p <= |s| && Line(s, p, [], [], end)
    ensures ParsesTo(s, p, [])
  {
    SkipBlank(s, p, end);
    if end < |s| {
      FindIs(s, end + 1, '"', |s|);
    }
  }

  /** From `p` on stand spaces, then a typed argument, up to `q`. */
  predicate Begins(s: string, p: nat, t: Typed, q: nat) {
    q >= Length(t) && Blank(s, p, q - Length(t)) && TypedAt(s, q - Length(t), t)
  }

  lemma LineBegins(s: string, p: nat, ts: seq<Typed>, places: seq<nat>, end: nat) returns (q: nat)
    requires p <= |s| && Line(s, p, ts, places, end) && ts != []
    ensures places != [] && q <= |s| && Begins(s, p, ts[0], q) && Line(s, q, ts[1..], places[1..], end)
  {
    q := places[0] + Length(ts[0]);
  }

  lemma ArgsBegin(s: string, p: nat, t: Typed, q: nat)
    requires Begins(s, p, t, q)
    ensures Reads(s, p, t.text, q)
  {
    var start := q - Length(t);
    SkipBlank(s, p, start);
    ArgsSkip(s, p, start);
    ArgsTyped(s, start, t, q);
    AfterSpace(s, q);
  }

  lemma ParsesMore(s: string, p: nat, q: nat, ts: seq<Typed>)
    requires ts != [] && Begins(s, p, ts[0], q) && ParsesTo(s, q, Meant(ts[1..]))
    ensures ParsesTo(s, p, Meant(ts))
  {
    ArgsBegin(s, p, ts[0], q);
  }

  lemma {:induction false} LineParses(s: string, p: nat, ts: seq<Typed>, places: seq<nat>, end: nat)
    requires p <= |s| && Line(s, p, ts, places, end)
    ensures ParsesTo(s, p, Meant(ts))
    decreases |ts|
  {
    if ts == [] {
      LineEnds(s, p, end);
    } else {
      var q := LineBegins(s, p, ts, places, end);
      LineParses(s, q, ts[1..], places[1..], end);
      ParsesMore(s, p, q, ts);
    }
  }

  /** Parsing a line gives back the arguments it was made of, whatever spaces stand around them, and whatever stands behind a
      quote that is never closed. */
  lemma LineRoundTrip(s: string, p: nat, ts: seq<Typed>, places: seq<nat>, end: nat)
    requires p <= |s| && Line(s, p, ts, places, end)
    ensures Args(s, p) == Meant(ts)
  {
    LineParses(s, p, ts, places, end);
  }

  // ---------- the buffer after the first pass ----------

  predicate CString(s: string) {
    forall i :: 0 <= i < |s| ==> s[i] != '\0'
  }

  function From(ts: seq<Token>, i: nat): nat
    requires i <= |ts|
  {
    if i == 0 then 0 else ts[i - 1].end
  }

  /** The i-th argument stands in the buffer, with zeros before it, back to the one before, and a zero behind it. */
  predicate Isolated(s: string, b: seq<char>, ts: seq<Token>, i: nat)
    requires |b| == |s| + 1 && i < |ts|
  {
    var t := ts[i];
    && From(ts, i) <= t.start <= t.end <= |s| && b[t.end] == '\0'
    && (forall k :: From(ts, i) <= k < t.start ==> b[k] == '\0')
    && (forall k :: t.start <= k < t.end ==> b[k] == s[k])
  }

  predicate Cut(s: string, b: seq<char>, ts: seq<Token>)
    requires |b| == |s| + 1
  {
    forall i :: 0 <= i < |ts| ==> Isolated(s, b, ts, i)
  }

  // ---------- the second pass, as a function of the buffer ----------

  /** The first place from `p` on that holds no zero, or the end of the buffer. */
  function SkipZeros(b: seq<char>, p: nat): (q: nat)
    requires p <= |b|
    ensures p <= q <= |b| && (q < |b| ==> b[q] != '\0') && forall i :: p <= i < q ==> b[i] == '\0'
    decreases |b| - p
  {
    if p == |b| || b[p] != '\0' then p else SkipZeros(b, p + 1)
  }

  function SkipText(b: seq<char>, p: nat): (q: nat)
    requires p <= |b|
    ensures p <= q <= |b| && (q < |b| ==> b[q] == '\0') && forall i :: p <= i < q ==> b[i] != '\0'
    decreases |b| - p
  {
    if p == |b| || b[p] == '\0' then p else SkipText(b, p + 1)
  }

  /** Where the second pass finds its arguments; none if it looks behind the end of the buffer. */
  function SecondPass(b: seq<char>, p: nat, count: nat): (r: Option<seq<nat>>)
    requires p <= |b|
    ensures r.Some? ==> |r.value| == count && forall i :: 0 <= i < count ==> r.value[i] < |b| && b[r.value[i]] != '\0'
    decreases count
  {
    if count == 0 then Some([])
    else
      var q := SkipZeros(b, p);
      if q == |b| then None
      else match SecondPass(b, SkipText(b, q), count - 1)
           case None => None
           case Some(rest) => Some([q] + rest)
  }

  /** From `p` on the second pass finds the arguments of `found` from the `i`-th on. */
  predicate Finds(b: seq<char>, p: nat, found: seq<nat>, i: nat) {
    p <= |b| && i <= |found| && SecondPass(b, p, |found| - i) == Some(found[i..])
  }

  lemma SecondStep(b: seq<char>, p: nat, found: seq<nat>, i: nat)
    requires Finds(b, p, found, i) && i < |found|
    ensures var q := SkipZeros(b, p);
            q < |b| && found[i] == q && Finds(b, SkipText(b, q), found, i + 1)
  {
    assert found[i..][1..] == found[i + 1..];
  }

  function Starts(ts: seq<Token>): (r: seq<nat>)
    ensures |r| == |ts| && forall i :: 0 <= i < |ts| ==> r[i] == ts[i].start
  {
    seq(|ts|, i requires 0 <= i < |ts| => ts[i].start)
  }

  predicate NoneEmpty(ts: seq<Token>) {
    forall i :: 0 <= i < |ts| ==> ts[i].start < ts[i].end
  }

  /** From one argument the second pass gets to the next one. */
  lemma NextFound(s: string, b: seq<char>, ts: seq<Token>, i: nat)
    requires CString(s) && |b| == |s| + 1 && i < |ts| && Isolated(s, b, ts, i) && ts[i].start < ts[i].end
    ensures SkipZeros(b, From(ts, i)) == ts[i].start && SkipText(b, ts[i].start) == ts[i].end
  {
    var q := SkipZeros(b, From(ts, i));
    assert b[ts[i].start] == s[ts[i].start];
  }

  lemma {:induction false} SecondFinds(s: string, b: seq<char>, ts: seq<Token>, i: nat)
    requires CString(s) && |b| == |s| + 1 && Cut(s, b, ts) && NoneEmpty(ts) && i <= |ts| && From(ts, i) <= |b|
    ensures SecondPass(b, From(ts, i), |ts| - i) == Some(Starts(ts)[i..])
    decreases |ts| - i
  {
    if i < |ts| {
      NextFound(s, b, ts, i);
      SecondFinds(s, b, ts, i + 1);
      assert Starts(ts)[i..] == [ts[i].start] + Starts(ts)[i + 1..];
    }
  }

  /** The second pass finds the arguments of the first one exactly when none of them is empty. */
  lemma SecondExact(s: string, b: seq<char>, ts: seq<Token>)
    requires CString(s) && |b| == |s| + 1 && Cut(s, b, ts)
    ensures SecondPass(b, 0, |ts|) == Some(Starts(ts)) <==> NoneEmpty(ts)
  {
    if NoneEmpty(ts) {
      SecondFinds(s, b, ts, 0);
    } else {
      var i :| 0 <= i < |ts| && ts[i].start >= ts[i].end;
      assert Isolated(s, b, ts, i);
    }
  }

  // ---------- when the second pass leaves the buffer ----------

  /** The text behind the last argument, which the first pass leaves as it was. */
  function TailToken(s: string): Token {
    Token(Tail(s, 0), |s|)
  }

  function Filled(ts: seq<Token>): (n: nat)
    ensures n <= |ts|
  {
    if ts == [] then 0 else (if ts[0].start < ts[0].end then 1 else 0) + Filled(ts[1..])
  }

  /** The number of empty arguments of a line, and of quotes behind them that are never closed and hold some text. */
  function Empties(s: string): nat {
    |Tokens(s, 0)| - Filled(Tokens(s, 0))
  }

  function Open(s: string): nat {
    if Tail(s, 0) < |s| then 1 else 0
  }

  lemma {:induction false} FilledAll(ts: seq<Token>)
    ensures Filled(ts) == |ts| <==> NoneEmpty(ts)
  {
    if ts != [] {
      FilledAll(ts[1..]);
      assert forall i :: 0 < i < |ts| ==> ts[i] == ts[1..][i - 1];
      if NoneEmpty(ts) {
        assert forall i :: 0 <= i < |ts[1..]| ==> ts[1..][i].start < ts[1..][i].end;
      }
    }
  }

  /** The lines of which the second pass finds the arguments are among those on which it stays inside the buffer. */
  lemma NoneEmptyStays(s: string)
    ensures Empties(s) == 0 <==> NoneEmpty(Tokens(s, 0))
  {
    FilledAll(Tokens(s, 0));
  }

  lemma {:induction false} FilledAppend(ts: seq<Token>, t: Token)
    ensures Filled(ts + [t]) == Filled(ts) + if t.start < t.end then 1 else 0
  {
    if ts != [] {
      FilledAppend(ts[1..], t);
      assert (ts + [t])[1..] == ts[1..] + [t];
    } else {
      assert ts + [t] == [t] && [t][1..] == [];
    }
  }

  lemma {:induction false} ZerosSkipped(b: seq<char>, p: nat, q: nat)
    requires p <= q <= |b| && forall k :: p <= k < q ==> b[k] == '\0'
    ensures SkipZeros(b, p) == SkipZeros(b, q)
    decreases q - p
  {
    if p < q {
      ZerosSkipped(b, p + 1, q);
    }
  }

  lemma FilledFrom(g: seq<Token>, i: nat)
    requires i < |g|
    ensures Filled(g[i..]) == (if g[i].start < g[i].end then 1 else 0) + Filled(g[i + 1..])
  {
    assert g[i..][1..] == g[i + 1..];
  }

  /** From one piece on, the second pass leaves the buffer exactly when it looks for more than there are texts. */
  predicate Leaves(b: seq<char>, g: seq<Token>, i: nat, count: nat) {
    i <= |g| && From(g, i) <= |b| && (SecondPass(b, From(g, i), count) == None <==> count > Filled(g[i..]))
  }

  lemma LeavesEmpty(s: string, b: seq<char>, g: seq<Token>, i: nat, count: nat)
    requires |b| == |s| + 1 && i < |g| && Isolated(s, b, g, i) && g[i].start == g[i].end && Leaves(b, g, i + 1, count)
    ensures Leaves(b, g, i, count)
  {
    FilledFrom(g, i);
    ZerosSkipped(b, From(g, i), g[i].end);
  }

  lemma LeavesText(s: string, b: seq<char>, g: seq<Token>, i: nat, count: nat)
    requires CString(s) && |b| == |s| + 1 && i < |g| && Isolated(s, b, g, i) && g[i].start < g[i].end
    requires count > 0 ==> Leaves(b, g, i + 1, count - 1)
    ensures Leaves(b, g, i, count)
  {
    FilledFrom(g, i);
    NextFound(s, b, g, i);
  }

  lemma {:induction false} LeavesFrom(s: string, b: seq<char>, g: seq<Token>, i: nat, count: nat)
    requires CString(s) && |b| == |s| + 1 && Cut(s, b, g) && i <= |g| && g != [] && g[|g| - 1].end == |s|
    ensures Leaves(b, g, i, count)
    decreases |g| - i
  {
    if i == |g| {
      assert Isolated(s, b, g, |g| - 1);
    } else {
      assert Isolated(s, b, g, i);
      if g[i].start == g[i].end {
        LeavesFrom(s, b, g, i + 1, count);
        LeavesEmpty(s, b, g, i, count);
      } else {
        if count > 0 {
          LeavesFrom(s, b, g, i + 1, count - 1);
        }
        LeavesText(s, b, g, i, count);
      }
    }
  }

  /** The second pass leaves the buffer exactly when there are more empty arguments than texts behind the last argument, of
      which there is at most one. */
  lemma SecondPassLeaves(s: string, b: seq<char>)
    requires CString(s) && |b| == |s| + 1 && Cut(s, b, Tokens(s, 0) + [TailToken(s)])
    ensures SecondPass(b, 0, |Tokens(s, 0)|) == None <==>
            Empties(s) > Open(s)
  {
    var g := Tokens(s, 0) + [TailToken(s)];
    LeavesFrom(s, b, g, 0, |Tokens(s, 0)|);
    FilledAppend(Tokens(s, 0), TailToken(s));
    assert g[0..] == g;
  }

  const EMPTY_ONLY: string := "\"\""
  const EMPTY_AND_OPEN: string := "\"\" \"a"

  /** Behind the empty argument of this line there is nothing to find: the second pass leaves the buffer. */
  lemma EmptyOnly(b: seq<char>)
    requires |b| == 3 && Cut(EMPTY_ONLY, b, Tokens(EMPTY_ONLY, 0) + [TailToken(EMPTY_ONLY)])
    ensures Args(EMPTY_ONLY, 0) == [""] && SecondPass(b, 0, 1) == None
  {
    var s := EMPTY_ONLY;
    assert |s| == 2 && s[0] == '"' && s[1] == '"';
    assert Extract(s, 0) == Arg(Token(1, 1), 2) && Extract(s, 2) == NoArg;
    assert Tokens(s, 2) == [] && Tokens(s, 0) == [Token(1, 1)];
    assert Tail(s, 0) == Tail(s, 2) == 2;
    assert Args(s, 2) == [] && s[1..1] == "";
    assert Filled([Token(1, 1)]) == 0;
    SecondPassLeaves(s, b);
  }

  lemma EmptyAndOpenTokens()
    ensures var s := EMPTY_AND_OPEN;
            Args(s, 0) == [""] && Tokens(s, 0) + [TailToken(s)] == [Token(1, 1), Token(4, 5)]
  {
    var s := EMPTY_AND_OPEN;
    assert |s| == 5 && s[0] == '"' && s[1] == '"' && s[2] == ' ' && s[3] == '"' && s[4] == 'a';
    assert Extract(s, 0) == Arg(Token(1, 1), 2);
    assert SkipSpaces(s, 3) == 3 && SkipSpaces(s, 2) == 3;
    assert Find(s, 5, '"') == 5 && Find(s, 4, '"') == 5;
    assert Extract(s, 2) == NoArg && TailAt(s, 2) == 4;
    assert Tokens(s, 2) == [] && Tokens(s, 0) == [Token(1, 1)];
    assert Tail(s, 0) == Tail(s, 2) == 4;
    assert Args(s, 2) == [] && s[1..1] == "";
  }

  /** Behind the empty argument of this one it finds the text of the quote that is not closed, which is no argument. */
  lemma EmptyAndOpen(b: seq<char>)
    requires |b| == 6 && Cut(EMPTY_AND_OPEN, b, Tokens(EMPTY_AND_OPEN, 0) + [TailToken(EMPTY_AND_OPEN)])
    ensures Args(EMPTY_AND_OPEN, 0) == [""] && SecondPass(b, 0, 1) == Some([4]) && b[4] == 'a'
  {
    EmptyAndOpenTokens();
    var g := [Token(1, 1), Token(4, 5)];
    assert Isolated(EMPTY_AND_OPEN, b, g, 0) && Isolated(EMPTY_AND_OPEN, b, g, 1);
    ZerosSkipped(b, 0, 4);
    assert SkipZeros(b, 4) == 4;
    var none: seq<nat> := [];
    assert SecondPass(b, SkipText(b, 4), 0) == Some(none) && [4] + none == [4];
  }

  // ---------- in place ----------

  /** The line from `p` on is still untouched. */
  predicate Rest(a: array<char>, s: string, p: nat)
    reads a
  {
    a.Length == |s| + 1 && p <= |s| && a[|s|] == '\0' && forall k :: p <= k < |s| ==> a[k] == s[k]
  }

  /** `strstr` for one character: the first place with it, or the terminator. */
  method StrStr(a: array<char>, ghost s: string, p: nat, c: char) returns (q: nat)
    requires Rest(a, s, p) && CString(s) && c != '\0'
    ensures q == Find(s, p, c)
  {
    q := p;
    while a[q] != '\0' && a[q] != c
      invariant p <= q <= |s| && Find(s, p, c) == Find(s, q, c)
      decreases |s| - q
    {
      q := q + 1;
    }
  }

  /** Nothing before `p` has changed, and the line is still terminated. */
  twostate predicate Kept(a: array<char>, s: string, p: nat)
    reads a
  {
    a.Length == |s| + 1 && a[|s|] == '\0' && forall k :: 0 <= k < p && k < |s| ==> a[k] == old(a[k])
  }

  /** Zeroes leading spaces. */
  method StripSpaces(a: array<char>, ghost s: string, p: nat) returns (q: nat)
    requires Rest(a, s, p) && CString(s)
    modifies a
    ensures q == SkipSpaces(s, p) && Rest(a, s, q) && Kept(a, s, p)
    ensures forall k :: p <= k < q ==> a[k] == '\0'
  {
    q := p;
    while a[q] == ' '
      invariant p <= q <= |s| && Rest(a, s, q) && SkipSpaces(s, p) == SkipSpaces(s, q) && Kept(a, s, p)
      invariant forall k :: p <= k < q ==> a[k] == '\0'
      decreases |s| - q
    {
      a[q] := '\0';
      q := q + 1;
    }
  }

  /** Takes the next argument out of the line, zeroing the spaces and quotes around it. */
  method ExtractNextArg(a: array<char>, ghost s: string, p: nat) returns (x: Extracted)
    requires Rest(a, s, p) && CString(s)
    modifies a
    ensures x == Extract(s, p) && Kept(a, s, p)
    ensures x.Arg? ==> Rest(a, s, x.next) && Taken(s, a[..], p, x.token)
    ensures x.NoArg? ==> Taken(s, a[..], p, Token(TailAt(s, p), |s|))
  {
    if a[p] == '\0' {
      return NoArg;
    }
    var q := StripSpaces(a, s, p);
    if a[q] == '"' {
      x := ExtractQuote(a, s, p, q);
    } else {
      x := ExtractWord(a, s, p, q);
    }
  }

  method ExtractQuote(a: array<char>, ghost s: string, ghost p: nat, q: nat) returns (x: Extracted)
    requires Rest(a, s, q) && CString(s) && p <= q && a[q] == '"' && forall k :: p <= k < q ==> a[k] == '\0'
    modifies a
    ensures x == ExtractAt(s, q) && Kept(a, s, p)
    ensures x.Arg? ==> Rest(a, s, x.next) && Taken(s, a[..], p, x.token)
    ensures x.NoArg? ==> Taken(s, a[..], p, Token(if q < |s| then q + 1 else q, |s|))
  {
    a[q] := '\0';
    var next := StrStr(a, s, q + 1, '"');
    if a[next] == '\0' {
      return NoArg;
    }
    a[next] := '\0';
    return Arg(Token(q + 1, next), next + 1);
  }

  method ExtractWord(a: array<char>, ghost s: string, ghost p: nat, q: nat) returns (x: Extracted)
    requires Rest(a, s, q) && CString(s) && p <= q && a[q] != '"' && a[q] != ' ' && forall k :: p <= k < q ==> a[k] == '\0'
    modifies a
    ensures x == ExtractAt(s, q) && Kept(a, s, p)
    ensures x.Arg? ==> Rest(a, s, x.next) && Taken(s, a[..], p, x.token)
    ensures x.NoArg? ==> Taken(s, a[..], p, Token(if q < |s| then q + 1 else q, |s|))
  {
    var next := StrStr(a, s, q, ' ');
    if a[next] == '\0' {
      if next == q {
        return NoArg;
      }
      a[next] := '\0';
      return Arg(Token(q, next), next);
    }
    a[next] := '\0';
    return Arg(Token(q, next), next + 1);
  }

  /** An argument found from `p` on stands in the buffer between zeros. */
  predicate Taken(s: string, b: seq<char>, p: nat, t: Token) {
    && |b| == |s| + 1 && p <= t.start <= t.end <= |s| && b[t.end] == '\0'
    && (forall k :: p <= k < t.start ==> b[k] == '\0')
    && (forall k :: t.start <= k < t.end ==> b[k] == s[k])
  }

  /** Everything before `p` is cut up, back to the last argument. */
  predicate CutUpTo(s: string, b: seq<char>, ts: seq<Token>, p: nat) {
    && |b| == |s| + 1 && Cut(s, b, ts) && From(ts, |ts|) <= p <= |s|
    && (forall i :: 0 <= i < |ts| ==> ts[i].end < p || ts[i].end == p == |s|)
    && (forall k :: From(ts, |ts|) <= k < p ==> b[k] == '\0')
  }

  lemma CutKept(s: string, b: seq<char>, c: seq<char>, ts: seq<Token>, p: nat)
    requires CutUpTo(s, b, ts, p) && |c| == |b| && c[|s|] == '\0' && forall k :: 0 <= k < p && k < |s| ==> c[k] == b[k]
    ensures CutUpTo(s, c, ts, p)
  {
    forall i | 0 <= i < |ts|
      ensures Isolated(s, c, ts, i)
    {
      assert Isolated(s, b, ts, i);
    }
  }

  lemma IsolatedAlso(s: string, b: seq<char>, ts: seq<Token>, t: Token, i: nat)
    requires |b| == |s| + 1 && i < |ts| && Isolated(s, b, ts, i)
    ensures Isolated(s, b, ts + [t], i)
  {
    assert From(ts + [t], i) == From(ts, i) && (ts + [t])[i] == ts[i];
  }

  lemma IsolatedLast(s: string, b: seq<char>, ts: seq<Token>, p: nat, t: Token)
    requires CutUpTo(s, b, ts, p) && Taken(s, b, p, t)
    ensures Isolated(s, b, ts + [t], |ts|)
  {
    assert From(ts + [t], |ts|) == From(ts, |ts|) && (ts + [t])[|ts|] == t;
  }

  lemma CutMore(s: string, b: seq<char>, ts: seq<Token>, p: nat, t: Token, next: nat)
    requires CutUpTo(s, b, ts, p) && Taken(s, b, p, t) && p <= next && Behind(s, t.end, next) && next <= |s|
    ensures CutUpTo(s, b, ts + [t], next)
  {
    var us := ts + [t];
    forall i | 0 <= i < |us|
      ensures Isolated(s, b, us, i)
    {
      if i < |ts| {
        IsolatedAlso(s, b, ts, t, i);
      } else {
        IsolatedLast(s, b, ts, p, t);
      }
    }
  }

  /** The first pass counts the arguments and cuts the line up into them. */
  method CountArgs(a: array<char>, ghost s: string) returns (count: nat)
    requires Rest(a, s, 0) && CString(s)
    modifies a
    ensures a.Length == |s| + 1 && a[|s|] == '\0' && count == |Tokens(s, 0)|
    ensures Cut(s, a[..], Tokens(s, 0)) && Cut(s, a[..], Tokens(s, 0) + [TailToken(s)])
  {
    ghost var ts: seq<Token> := [];
    var p := 0;
    count := 0;
    var x := NextArg(a, s, p, ts);
    while x.Arg?
      invariant Counted(s, p, ts) && a.Length == |s| + 1 && count == |ts| && x == Extract(s, p)
      invariant CutUpTo(s, a[..], ts, p) && a[|s|] == '\0'
      invariant x.Arg? ==> Rest(a, s, x.next) && CutUpTo(s, a[..], ts + [x.token], x.next)
      invariant x.NoArg? ==> Cut(s, a[..], ts + [Token(TailAt(s, p), |s|)])
      decreases |s| - p
    {
      count := count + 1;
      OneMore(s, p, ts);
      ts := ts + [x.token];
      p := x.next;
      x := NextArg(a, s, p, ts);
    }
    assert Tokens(s, p) == [] && ts + [] == ts;
  }

  /** The arguments before `p` are those of `ts`. */
  predicate Counted(s: string, p: nat, ts: seq<Token>) {
    p <= |s| && Tokens(s, 0) == ts + Tokens(s, p) && Tail(s, 0) == Tail(s, p)
  }

  lemma OneMore(s: string, p: nat, ts: seq<Token>)
    requires Counted(s, p, ts) && Extract(s, p).Arg?
    ensures var x := Extract(s, p); Counted(s, x.next, ts + [x.token])
  {
    var x := Extract(s, p);
    assert ts + Tokens(s, p) == (ts + [x.token]) + Tokens(s, x.next);
  }

  /** One more argument, behind those that are already cut out. */
  method NextArg(a: array<char>, ghost s: string, p: nat, ghost ts: seq<Token>) returns (x: Extracted)
    requires Rest(a, s, p) && CString(s) && CutUpTo(s, a[..], ts, p)
    modifies a
    ensures x == Extract(s, p) && CutUpTo(s, a[..], ts, p) && a[|s|] == '\0'
    ensures x.Arg? ==> Rest(a, s, x.next) && CutUpTo(s, a[..], ts + [x.token], x.next)
    ensures x.NoArg? ==> Cut(s, a[..], ts + [Token(TailAt(s, p), |s|)])
  {
    ghost var b := a[..];
    x := ExtractNextArg(a, s, p);
    CutKept(s, b, a[..], ts, p);
    if x.Arg? {
      CutMore(s, a[..], ts, p, x.token, x.next);
    } else {
      CutMore(s, a[..], ts, p, Token(TailAt(s, p), |s|), |s|);
    }
  }

  datatype Pointer = Null | To(offset: nat)

  /** The second pass, where it stays inside the buffer. */
  method FindArgs(a: array<char>, count: nat) returns (argv: array<Pointer>)
    requires a.Length > 0 && a[a.Length - 1] == '\0' && SecondPass(a[..], 0, count).Some?
    ensures fresh(argv) && argv.Length == count + 1 && argv[count] == Null
    ensures forall i :: 0 <= i < count ==> argv[i] == To(SecondPass(a[..], 0, count).value[i])
  {
    argv := new Pointer[count + 1](_ => Null);
    var pos: nat := 0;
    ghost var b := a[..];
    ghost var found := SecondPass(b, 0, count).value;
    assert found[0..] == found;
    for i := 0 to count
      invariant Finds(b, pos, found, i)
      invariant forall j :: 0 <= j < i ==> argv[j] == To(found[j])
      invariant forall j :: i <= j <= count ==> argv[j] == Null
    {
      SecondStep(b, pos, found, i);
      pos := SkipNulls(a, pos);
      argv[i] := To(pos);
      pos := SkipArg(a, pos);
    }
  }

  /** Passes over the zeros in front of an argument. */
  method SkipNulls(a: array<char>, p: nat) returns (pos: nat)
    requires p <= a.Length && SkipZeros(a[..], p) < a.Length
    ensures pos == SkipZeros(a[..], p)
  {
    pos := p;
    while a[pos] == '\0'
      invariant pos <= SkipZeros(a[..], p) && SkipZeros(a[..], pos) == SkipZeros(a[..], p)
      decreases a.Length - pos
    {
      pos := pos + 1;
    }
  }

  /** Passes over an argument; the terminator of the line stops it. */
  method SkipArg(a: array<char>, p: nat) returns (pos: nat)
    requires p <= a.Length && SkipText(a[..], p) < a.Length
    ensures pos == SkipText(a[..], p)
  {
    pos := p;
    while a[pos] != '\0'
      invariant pos <= SkipText(a[..], p) && SkipText(a[..], pos) == SkipText(a[..], p)
      decreases a.Length - pos
    {
      pos := pos + 1;
    }
  }

  /** Both passes, on every line on which the second one stays inside the buffer. If no argument is empty, the pointers are the
      arguments of the line in order, each a C string in place; in any case they are what the second pass finds. */
  method ParseArgs(a: array<char>, ghost s: string) returns (count: nat, argv: array<Pointer>)
    requires Rest(a, s, 0) && CString(s) && Empties(s) <= Open(s)
    modifies a
    ensures count == |Args(s, 0)| && argv.Length == count + 1 && argv[count] == Null
    ensures var found := SecondPass(a[..], 0, count);
            found.Some? && forall i :: 0 <= i < count ==> argv[i] == To(found.value[i])
    ensures Empties(s) == 0 ==>
              forall i :: 0 <= i < count ==> argv[i].To? && Holds(a[..], argv[i].offset, Args(s, 0)[i])
  {
    count := CountArgs(a, s);
    NoneEmptyStays(s);
    SecondExact(s, a[..], Tokens(s, 0));
    SecondPassLeaves(s, a[..]);
    argv := FindArgs(a, count);
    ArgsHeld(s, a[..]);
  }

  lemma ArgHeld(s: string, b: seq<char>, ts: seq<Token>, i: nat)
    requires |b| == |s| + 1 && i < |ts| && Isolated(s, b, ts, i)
    ensures Holds(b, ts[i].start, s[ts[i].start..ts[i].end])
  {
  }

  /** A line that is cut up holds its arguments. */
  lemma ArgsHeld(s: string, b: seq<char>)
    requires |b| == |s| + 1 && Cut(s, b, Tokens(s, 0))
    ensures |Args(s, 0)| == |Tokens(s, 0)|
    ensures forall i :: 0 <= i < |Args(s, 0)| ==> Holds(b, Tokens(s, 0)[i].start, Args(s, 0)[i])
  {
    ArgsAreTokens(s, 0);
    forall i | 0 <= i < |Args(s, 0)|
      ensures Holds(b, Tokens(s, 0)[i].start, Args(s, 0)[i])
    {
      ArgHeld(s, b, Tokens(s, 0), i);
    }
  }

  /** A C string stands at a place of the buffer. */
  predicate Holds(b: seq<char>, p: nat, w: string) {
    p + |w| < |b| && b[p..p + |w|] == w && b[p + |w|] == '\0'
  }
}
