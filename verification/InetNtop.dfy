/** Printing IPv6 addresses (library/src/net.c): the text with its longest run of zero groups shortened to `::`, and a
    reader of the text forms of RFC 4291, section 2.2, that gets the address back. */
module InetNtop {
  import opened Collections
  import opened Words

  type word = x: int | 0 <= x < 0x1_0000

  // ---------- numbers ----------

  function DigitOf(d: nat): char
    requires d < 16
  {
    "0123456789abcdef"[d]
  }

  /** What a character counts as a digit; 16 if it is none. */
  function DigitValue(c: char): nat {
    if '0' <= c <= '9' then c as nat - '0' as nat
    else if 'a' <= c <= 'f' then 10 + c as nat - 'a' as nat
    else if 'A' <= c <= 'F' then 10 + c as nat - 'A' as nat
    else 16
  }

  type Base = b: nat | b == 10 || b == 16 witness 10

  function Front(n: nat, base: Base): nat {
    if base == 10 then n / 10 else n / 16
  }

  function Last(n: nat, base: Base): nat {
    if base == 10 then n % 10 else n % 16
  }

  function Appended(n: nat, d: nat, base: Base): nat {
    if base == 10 then 10 * n + d else 16 * n + d
  }

  /** What `%x` and `%u` print. */
  function Digits(n: nat, base: Base): (s: string)
    ensures s != []
    decreases n
  {
    if n < base then [DigitOf(n)] else Digits(Front(n, base), base) + [DigitOf(Last(n, base))]
  }

  function Number(s: string, base: Base): Option<nat> {
    if s == [] || DigitValue(s[|s| - 1]) >= base then None
    else if |s| == 1 then Some(DigitValue(s[0]))
    else match Number(s[..|s| - 1], base)
         case None => None
         case Some(high) => Some(Appended(high, DigitValue(s[|s| - 1]), base))
  }

  predicate AreDigits(s: string) {
    s != [] && forall i :: 0 <= i < |s| ==> DigitValue(s[i]) < 16
  }

  lemma DigitRoundTrip(d: nat)
    requires d < 16
    ensures DigitValue(DigitOf(d)) == d
  {
    assert DigitOf(d) == if d < 10 then '0' + d as char else 'a' + (d - 10) as char;
  }

  lemma {:induction false} NumberRoundTrip(n: nat, base: Base)
    ensures Number(Digits(n, base), base) == Some(n)
    decreases n
  {
    if n < base {
      DigitRoundTrip(n);
    } else {
      NumberRoundTrip(Front(n, base), base);
      DigitRoundTrip(Last(n, base));
      NumberExtends(Digits(Front(n, base), base), DigitOf(Last(n, base)), base);
    }
  }

  lemma {:induction false} DigitsAreDigits(n: nat, base: Base)
    ensures AreDigits(Digits(n, base))
    decreases n
  {
    if n < base {
      DigitRoundTrip(n);
    } else {
      DigitsAreDigits(Front(n, base), base);
      DigitRoundTrip(Last(n, base));
    }
  }

  lemma NumberExtends(s: string, c: char, base: Base)
    requires Number(s, base).Some? && DigitValue(c) < base
    ensures Number(s + [c], base) == Some(Appended(Number(s, base).value, DigitValue(c), base))
  {
    var t := s + [c];
    assert t[..|t| - 1] == s && t[|t| - 1] == c;
  }

  function Hex(n: word): string {
    Digits(n, 16)
  }

  function Decimal(n: byte): string {
    Digits(n, 10)
  }

  lemma MoreDigits(n: nat, base: Base)
    ensures |Digits(n, base)| == if n < base then 1 else |Digits(Front(n, base), base)| + 1
  {
  }

  lemma HexLength(n: word)
    ensures 1 <= |Hex(n)| <= 4
  {
    MoreDigits(n, 16);
    MoreDigits(n / 16, 16);
    MoreDigits(n / 16 / 16, 16);
    MoreDigits(n / 16 / 16 / 16, 16);
  }

  lemma DecimalLength(n: byte)
    ensures 1 <= |Decimal(n)| <= 3
  {
    MoreDigits(n, 10);
    MoreDigits(n / 10, 10);
    MoreDigits(n / 10 / 10, 10);
  }

  // ---------- separated pieces ----------

  function Join(ps: seq<string>, c: char): string {
    if ps == [] then [] else if |ps| == 1 then ps[0] else ps[0] + [c] + Join(ps[1..], c)
  }

  function Split(s: string, c: char): (ps: seq<string>)
    ensures |ps| >= 1
  {
    if s == [] then [[]]
    else
      var ps := Split(s[1..], c);
      if s[0] == c then [[]] + ps else [[s[0]] + ps[0]] + ps[1..]
  }

  predicate Lacks(s: string, c: char) {
    forall i :: 0 <= i < |s| ==> s[i] != c
  }

  lemma {:induction false} SplitPiece(p: string, c: char)
    requires Lacks(p, c)
    ensures Split(p, c) == [p]
  {
    if p != [] {
      SplitPiece(p[1..], c);
      assert [p[0]] + p[1..] == p;
    }
  }

  lemma {:induction false} SplitFirst(p: string, c: char, rest: string)
    requires Lacks(p, c)
    ensures Split(p + [c] + rest, c) == [p] + Split(rest, c)
  {
    var s := p + [c] + rest;
    if p == [] {
      assert s[1..] == rest;
    } else {
      assert s[1..] == p[1..] + [c] + rest;
      SplitFirst(p[1..], c, rest);
      assert [p[0]] + p[1..] == p;
    }
  }

  lemma {:induction false} SplitJoin(ps: seq<string>, c: char)
    requires ps != [] && forall i :: 0 <= i < |ps| ==> Lacks(ps[i], c)
    ensures Split(Join(ps, c), c) == ps
  {
    if |ps| == 1 {
      SplitPiece(ps[0], c);
    } else {
      SplitJoin(ps[1..], c);
      SplitFirst(ps[0], c, Join(ps[1..], c));
      assert [ps[0]] + ps[1..] == ps;
    }
  }

  lemma {:induction false} JoinAppend(ps: seq<string>, p: string, c: char)
    ensures Join(ps + [p], c) == Join(ps, c) + (if ps == [] then [] else [c]) + p
  {
    if |ps| > 0 {
      JoinAppend(ps[1..], p, c);
      assert (ps + [p])[1..] == ps[1..] + [p];
      if |ps| == 1 {
        assert ps[1..] == [];
      }
    } else {
      assert ps + [p] == [p];
    }
  }

  // ---------- reading an address ----------

  /** The place of the first `::`. */
  function Gap(s: string): (g: Option<nat>)
    ensures g.Some? ==> g.value + 2 <= |s|
  {
    if |s| < 2 then None
    else if s[0] == ':' && s[1] == ':' then Some(0)
    else match Gap(s[1..])
         case None => None
         case Some(k) => Some(k + 1)
  }

  /** A group of up to four hexadecimal digits. */
  function ReadGroup(s: string): Option<word> {
    if |s| > 4 then None
    else match Number(s, 16)
         case Some(n) => if n < 0x1_0000 then Some(n) else None
         case None => None
  }

  function ReadByte(s: string): Option<byte> {
    if |s| > 3 then None
    else match Number(s, 10)
         case Some(n) => if n < 0x100 then Some(n) else None
         case None => None
  }

  /** Four decimal bytes stand for the last two groups. */
  function ReadDotted(s: string): Option<seq<word>> {
    var ps := Split(s, '.');
    if |ps| != 4 then None
    else match (ReadByte(ps[0]), ReadByte(ps[1]), ReadByte(ps[2]), ReadByte(ps[3]))
         case (Some(a), Some(b), Some(c), Some(d)) => Some([Pair(a, b), Pair(c, d)])
         case (_, _, _, _) => None
  }

  function Pair(high: byte, low: byte): word {
    var h: nat, l: nat := high, low;
    h * 0x100 + l
  }

  function High(n: word): byte {
    n / 0x100
  }

  function Low(n: word): byte {
    n % 0x100
  }

  lemma PairRoundTrip(n: word)
    ensures Pair(High(n), Low(n)) == n
  {
  }

  /** Groups between colons; where the text ends, the last piece may be dotted. */
  function ReadPieces(ps: seq<string>, atEnd: bool): Option<seq<word>> {
    if ps == [] then Some([])
    else if atEnd && |ps| == 1 && ReadDotted(ps[0]).Some? then ReadDotted(ps[0])
    else match (ReadGroup(ps[0]), ReadPieces(ps[1..], atEnd))
         case (Some(n), Some(ns)) => Some([n] + ns)
         case (_, _) => None
  }

  function ReadGroups(s: string, atEnd: bool): Option<seq<word>> {
    if s == [] then Some([]) else ReadPieces(Split(s, ':'), atEnd)
  }

  function Zeros(n: nat): seq<word> {
    seq(n, _ => 0)
  }

  /** The eight groups that a text stands for, if it is one of the forms of RFC 4291, section 2.2. */
  function Read(text: string): Option<seq<word>> {
    match Gap(text)
    case None =>
      (match ReadGroups(text, true)
       case Some(ws) => if |ws| == 8 then Some(ws) else None
       case None => None)
    case Some(k) =>
      (match (ReadGroups(text[..k], false), ReadGroups(text[k + 2..], true))
       case (Some(left), Some(right)) =>
         if |left| + |right| <= 7 then Some(left + Zeros(8 - |left| - |right|) + right) else None
       case (_, _) => None)
  }

  // ---------- the text of an address ----------

  datatype Run = NoRun | Run(base: nat, len: nat)

  predicate ZeroRun(w: seq<word>, base: nat, len: nat) {
    base + len <= |w| && forall i :: base <= i < base + len ==> w[i] == 0
  }

  /** The leftmost longest run of at least two zero groups, or none if there is no such run. */
  ghost predicate Best(w: seq<word>, run: Run) {
    match run
    case NoRun => forall b: nat, l: nat :: ZeroRun(w, b, l) ==> l < 2
    case Run(base, len) =>
      len >= 2 && ZeroRun(w, base, len) && forall b: nat, l: nat :: ZeroRun(w, b, l) ==> l < len || (l == len && base <= b)
  }

  /** There is only one such run. */
  lemma BestUnique(w: seq<word>, run: Run, other: Run)
    requires Best(w, run) && Best(w, other)
    ensures run == other
  {
    if run.Run? {
      assert ZeroRun(w, run.base, run.len);
    }
    if other.Run? {
      assert ZeroRun(w, other.base, other.len);
    }
  }

  function Pieces(w: seq<word>): (ps: seq<string>)
    ensures |ps| == |w| && forall i :: 0 <= i < |w| ==> ps[i] == Hex(w[i])
  {
    seq(|w|, i requires 0 <= i < |w| => Hex(w[i]))
  }

  function Dotted(high: word, low: word): string {
    Join([Decimal(High(high)), Decimal(Low(high)), Decimal(High(low)), Decimal(Low(low))], '.')
  }

  /** Whether the last two groups are printed as an IPv4 address. */
  predicate Embedded(w: seq<word>, run: Run)
    requires |w| == 8
  {
    run == Run(0, 6) || (run == Run(0, 5) && w[5] == 0xffff)
  }

  function Right(w: seq<word>, run: Run): seq<string>
    requires |w| == 8 && run.Run? && run.base + run.len <= 8
  {
    if Embedded(w, run) then Pieces(w[run.len..6]) + [Dotted(w[6], w[7])] else Pieces(w[run.base + run.len..])
  }

  predicate Fits(w: seq<word>, run: Run) {
    |w| == 8 && (run.Run? ==> run.len >= 1 && ZeroRun(w, run.base, run.len))
  }

  function Text(w: seq<word>, run: Run): string
    requires Fits(w, run)
  {
    match run
    case NoRun => Join(Pieces(w), ':')
    case Run(base, len) => Join(Pieces(w[..base]), ':') + "::" + Join(Right(w, run), ':')
  }

  // ---------- the round trip ----------

  /** No two colons in a row. */
  predicate NoGap(s: string) {
    forall i :: 0 <= i < |s| - 1 ==> s[i] != ':' || s[i + 1] != ':'
  }

  lemma {:induction false} GapNone(s: string)
    requires NoGap(s)
    ensures Gap(s) == None
  {
    if |s| >= 2 {
      GapNone(s[1..]);
    }
  }

  lemma {:induction false} GapAt(left: string, right: string)
    requires NoGap(left) && (left == [] || left[|left| - 1] != ':')
    ensures Gap(left + "::" + right) == Some(|left|)
  {
    if left != [] {
      var s := left + "::" + right;
      GapAt(left[1..], right);
      assert s[1..] == left[1..] + "::" + right;
      assert s[0] == left[0] && (|left| > 1 ==> s[1] == left[1]);
    }
  }

  predicate AllPieces(ps: seq<string>) {
    forall i :: 0 <= i < |ps| ==> ps[i] != [] && Lacks(ps[i], ':')
  }

  lemma {:induction false} JoinNoGap(ps: seq<string>)
    requires AllPieces(ps)
    ensures NoGap(Join(ps, ':'))
    ensures ps != [] ==> var s := Join(ps, ':'); s != [] && s[0] != ':' && s[|s| - 1] != ':'
  {
    if |ps| > 1 {
      JoinNoGap(ps[1..]);
    }
  }

  lemma GroupRoundTrip(n: word)
    ensures ReadGroup(Hex(n)) == Some(n) && ReadDotted(Hex(n)) == None && Hex(n) != [] && Lacks(Hex(n), ':')
  {
    NumberRoundTrip(n, 16);
    DigitsAreDigits(n, 16);
    HexLength(n);
    SplitPiece(Hex(n), '.');
  }

  lemma ByteRoundTrip(n: byte)
    ensures ReadByte(Decimal(n)) == Some(n) && AreDigits(Decimal(n)) && Lacks(Decimal(n), '.')
  {
    NumberRoundTrip(n, 10);
    DigitsAreDigits(n, 10);
    DecimalLength(n);
  }

  lemma JoinFour(a: string, b: string, c: string, d: string, sep: char)
    ensures Join([a, b, c, d], sep) == a + [sep] + (b + [sep] + (c + [sep] + d))
  {
    assert [a, b, c, d][1..] == [b, c, d] && [b, c, d][1..] == [c, d] && [c, d][1..] == [d];
    assert Join([c, d], sep) == c + [sep] + d;
    assert Join([b, c, d], sep) == b + [sep] + (c + [sep] + d);
  }

  lemma FourLack(a: string, b: string, c: string, d: string, x: char)
    requires Lacks(a, x) && Lacks(b, x) && Lacks(c, x) && Lacks(d, x) && x != '.'
    ensures Lacks(Join([a, b, c, d], '.'), x)
  {
    JoinFour(a, b, c, d, '.');
  }

  lemma FourAcross(a: string, b: string, c: string, d: string)
    requires AreDigits(a) && AreDigits(b) && AreDigits(c) && AreDigits(d)
    ensures Split(Join([a, b, c, d], '.'), '.') == [a, b, c, d]
    ensures Join([a, b, c, d], '.') != [] && Lacks(Join([a, b, c, d], '.'), ':') && Lacks(Join([a, b, c, d], '.'), '\0')
  {
    SplitJoin([a, b, c, d], '.');
    FourLack(a, b, c, d, ':');
    FourLack(a, b, c, d, '\0');
  }

  lemma DottedRoundTrip(high: word, low: word)
    ensures ReadDotted(Dotted(high, low)) == Some([high, low])
    ensures Dotted(high, low) != [] && Lacks(Dotted(high, low), ':')
  {
    ByteRoundTrip(High(high));
    ByteRoundTrip(Low(high));
    ByteRoundTrip(High(low));
    ByteRoundTrip(Low(low));
    FourAcross(Decimal(High(high)), Decimal(Low(high)), Decimal(High(low)), Decimal(Low(low)));
    PairRoundTrip(high);
    PairRoundTrip(low);
  }

  lemma {:induction false} PiecesRoundTrip(w: seq<word>, atEnd: bool)
    ensures ReadPieces(Pieces(w), atEnd) == Some(w) && AllPieces(Pieces(w))
  {
    forall i | 0 <= i < |w|
      ensures Pieces(w)[i] != [] && Lacks(Pieces(w)[i], ':')
    {
      GroupRoundTrip(w[i]);
    }
    if w != [] {
      GroupRoundTrip(w[0]);
      PiecesRoundTrip(w[1..], atEnd);
      assert Pieces(w)[1..] == Pieces(w[1..]);
      assert [w[0]] + w[1..] == w;
    }
  }

  lemma {:induction false} DottedEndRoundTrip(w: seq<word>, last: string, end: seq<word>)
    requires ReadDotted(last) == Some(end) && last != [] && Lacks(last, ':')
    ensures ReadPieces(Pieces(w) + [last], true) == Some(w + end)
    ensures AllPieces(Pieces(w) + [last])
  {
    PiecesRoundTrip(w, true);
    var ps := Pieces(w) + [last];
    if w == [] {
      assert ps == [last] && w + end == end;
    } else {
      GroupRoundTrip(w[0]);
      DottedEndRoundTrip(w[1..], last, end);
      assert ps[0] == Hex(w[0]) && ps[1..] == Pieces(w[1..]) + [last];
      assert [w[0]] + (w[1..] + end) == w + end;
    }
  }

  /** Pieces that read as some groups still do so after they are joined. */
  lemma GroupsRoundTrip(ps: seq<string>, ws: seq<word>, atEnd: bool)
    requires AllPieces(ps) && ReadPieces(ps, atEnd) == Some(ws)
    ensures ReadGroups(Join(ps, ':'), atEnd) == Some(ws)
  {
    if ps != [] {
      JoinNoGap(ps);
      SplitJoin(ps, ':');
    }
  }

  lemma LastTwo(w: seq<word>, k: nat)
    requires k <= 6 && |w| == 8
    ensures w[k..6] + [w[6], w[7]] == w[k..]
  {
  }

  lemma EmbeddedRoundTrip(w: seq<word>, k: nat)
    requires |w| == 8 && k <= 6
    ensures var ps := Pieces(w[k..6]) + [Dotted(w[6], w[7])];
            ReadPieces(ps, true) == Some(w[k..]) && AllPieces(ps)
  {
    DottedRoundTrip(w[6], w[7]);
    DottedEndRoundTrip(w[k..6], Dotted(w[6], w[7]), [w[6], w[7]]);
    LastTwo(w, k);
  }

  lemma RightRoundTrip(w: seq<word>, run: Run)
    requires Fits(w, run) && run.Run?
    ensures ReadPieces(Right(w, run), true) == Some(w[run.base + run.len..]) && AllPieces(Right(w, run))
  {
    if Embedded(w, run) {
      EmbeddedRoundTrip(w, run.len);
    } else {
      PiecesRoundTrip(w[run.base + run.len..], true);
    }
  }

  /** Reading groups on both sides of a gap. */
  lemma ReadAcross(ps: seq<string>, qs: seq<string>, left: seq<word>, right: seq<word>, n: nat)
    requires AllPieces(ps) && ReadPieces(ps, false) == Some(left)
    requires AllPieces(qs) && ReadPieces(qs, true) == Some(right) && |left| + n + |right| == 8 && n >= 1
    ensures Read(Join(ps, ':') + "::" + Join(qs, ':')) == Some(left + Zeros(n) + right)
  {
    var l, r := Join(ps, ':'), Join(qs, ':');
    JoinNoGap(ps);
    GapAt(l, r);
    GroupsRoundTrip(ps, left, false);
    GroupsRoundTrip(qs, right, true);
    SlicesAcross(l, r);
    ReadParts(l + "::" + r, |l|, left, right, n);
  }

  lemma SlicesAcross(l: string, r: string)
    ensures (l + "::" + r)[..|l|] == l && (l + "::" + r)[|l| + 2..] == r
  {
  }

  lemma ReadParts(text: string, k: nat, left: seq<word>, right: seq<word>, n: nat)
    requires Gap(text) == Some(k) && |left| + n + |right| == 8 && n >= 1
    requires ReadGroups(text[..k], false) == Some(left) && ReadGroups(text[k + 2..], true) == Some(right)
    ensures Read(text) == Some(left + Zeros(n) + right)
  {
  }

  lemma Reassembled(w: seq<word>, base: nat, len: nat)
    requires ZeroRun(w, base, len)
    ensures w[..base] + Zeros(len) + w[base + len..] == w
  {
  }

  lemma ReadWhole(w: seq<word>)
    requires |w| == 8
    ensures Read(Join(Pieces(w), ':')) == Some(w)
  {
    PiecesRoundTrip(w, true);
    JoinNoGap(Pieces(w));
    GapNone(Join(Pieces(w), ':'));
    GroupsRoundTrip(Pieces(w), w, true);
  }

  lemma GapRoundTrip(w: seq<word>, base: nat, len: nat, right: seq<string>)
    requires |w| == 8 && ZeroRun(w, base, len) && len >= 1
    requires AllPieces(right) && ReadPieces(right, true) == Some(w[base + len..])
    ensures Read(Join(Pieces(w[..base]), ':') + "::" + Join(right, ':')) == Some(w)
  {
    PiecesRoundTrip(w[..base], false);
    assert |w[..base]| == base && |w[base + len..]| == 8 - base - len;
    ReadAcross(Pieces(w[..base]), right, w[..base], w[base + len..], len);
    Reassembled(w, base, len);
  }

  /** Reading the text gives the address back, whichever run of zero groups it leaves out. */
  lemma RoundTrip(w: seq<word>, run: Run)
    requires Fits(w, run)
    ensures Read(Text(w, run)) == Some(w)
  {
    match run {
      case NoRun => ReadWhole(w);
      case Run(base, len) =>
        RightRoundTrip(w, run);
        GapRoundTrip(w, base, len, Right(w, run));
    }
  }

  // ---------- the one text of RFC 5952 ----------

  predicate LowerDigit(c: char) {
    '0' <= c <= '9' || 'a' <= c <= 'f'
  }

  /** A zero that starts a longer number stands at `i`. */
  predicate ZeroAhead(s: string, i: nat)
    requires i < |s|
  {
    s[i] == '0' && (i > 0 ==> !LowerDigit(s[i - 1])) && i + 1 < |s| && LowerDigit(s[i + 1])
  }

  /** Small digits, colons and dots only; and no zero starts a longer group or byte (sections 4.1 and 4.3 of RFC 5952). */
  predicate Canonical(s: string) {
    forall i :: 0 <= i < |s| ==> (LowerDigit(s[i]) || s[i] == ':' || s[i] == '.') && !ZeroAhead(s, i)
  }

  /** A number without leading zeros. */
  predicate Numeral(s: string) {
    s != [] && (forall i :: 0 <= i < |s| ==> LowerDigit(s[i])) && (s[0] == '0' ==> |s| == 1)
  }

  lemma DigitIsLower(d: nat)
    requires d < 16
    ensures LowerDigit(DigitOf(d)) && (DigitOf(d) == '0' <==> d == 0)
  {
  }

  lemma {:induction false} DigitsAreNumeral(n: nat, base: Base)
    ensures Numeral(Digits(n, base)) && (Digits(n, base)[0] == '0' ==> n == 0)
    decreases n
  {
    if n < base {
      DigitIsLower(n);
    } else {
      DigitsAreNumeral(Front(n, base), base);
      DigitIsLower(Last(n, base));
    }
  }

  lemma CanonicalAcross(s: string, c: char, t: string)
    requires Canonical(s) && Canonical(t) && (c == ':' || c == '.')
    ensures Canonical(s + [c] + t)
  {
    var u := s + [c] + t;
    assert u[|s|] == c && !LowerDigit(c);
    forall i | 0 <= i < |u|
      ensures (LowerDigit(u[i]) || u[i] == ':' || u[i] == '.') && !ZeroAhead(u, i)
    {
      if i < |s| {
        assert u[i] == s[i] && !ZeroAhead(s, i);
      } else if i > |s| {
        assert u[i] == t[i - |s| - 1] && !ZeroAhead(t, i - |s| - 1);
      }
    }
  }

  lemma {:induction false} CanonicalJoin(ps: seq<string>, c: char)
    requires (c == ':' || c == '.') && forall i :: 0 <= i < |ps| ==> Canonical(ps[i])
    ensures Canonical(Join(ps, c))
  {
    if |ps| > 1 {
      CanonicalJoin(ps[1..], c);
      CanonicalAcross(ps[0], c, Join(ps[1..], c));
    }
  }

  lemma {:induction false} LacksJoin(ps: seq<string>, c: char, x: char)
    requires x != c && forall i :: 0 <= i < |ps| ==> Lacks(ps[i], x)
    ensures Lacks(Join(ps, c), x)
  {
    if |ps| > 1 {
      LacksJoin(ps[1..], c, x);
    }
  }

  lemma PiecesCanonical(w: seq<word>)
    ensures Canonical(Join(Pieces(w), ':')) && Lacks(Join(Pieces(w), ':'), '.')
  {
    forall i | 0 <= i < |w|
      ensures Canonical(Pieces(w)[i]) && Lacks(Pieces(w)[i], '.')
    {
      DigitsAreNumeral(w[i], 16);
    }
    CanonicalJoin(Pieces(w), ':');
    LacksJoin(Pieces(w), ':', '.');
  }

  lemma DottedCanonical(high: word, low: word)
    ensures Canonical(Dotted(high, low)) && !Lacks(Dotted(high, low), '.')
  {
    var a, b, c, d := Decimal(High(high)), Decimal(Low(high)), Decimal(High(low)), Decimal(Low(low));
    DigitsAreNumeral(High(high), 10);
    DigitsAreNumeral(Low(high), 10);
    DigitsAreNumeral(High(low), 10);
    DigitsAreNumeral(Low(low), 10);
    CanonicalJoin([a, b, c, d], '.');
    JoinFour(a, b, c, d, '.');
    assert Dotted(high, low)[|a|] == '.';
  }

  lemma EmbeddedCanonical(w: seq<word>, run: Run)
    requires Fits(w, run) && Embedded(w, run)
    ensures Canonical(Join(Right(w, run), ':')) && !Lacks(Join(Right(w, run), ':'), '.')
  {
    var left, last := Pieces(w[run.len..6]), Dotted(w[6], w[7]);
    PiecesCanonical(w[run.len..6]);
    DottedCanonical(w[6], w[7]);
    JoinAppend(left, last, ':');
    if left != [] {
      CanonicalAcross(Join(left, ':'), ':', last);
      LacksBehind(Join(left, ':') + ":", last, '.');
    }
  }

  lemma LacksBehind(s: string, t: string, c: char)
    ensures Lacks(s + t, c) <==> Lacks(s, c) && Lacks(t, c)
  {
    assert forall k :: 0 <= k < |t| ==> (s + t)[|s| + k] == t[k];
    assert forall k :: 0 <= k < |s| ==> (s + t)[k] == s[k];
  }

  lemma RightCanonical(w: seq<word>, run: Run)
    requires Fits(w, run) && run.Run?
    ensures Canonical(Join(Right(w, run), ':')) && (Lacks(Join(Right(w, run), ':'), '.') <==> !Embedded(w, run))
  {
    if Embedded(w, run) {
      EmbeddedCanonical(w, run);
    } else {
      PiecesCanonical(w[run.base + run.len..]);
    }
  }

  lemma AcrossGap(l: string, r: string)
    requires Canonical(l) && Canonical(r) && Lacks(l, '.')
    ensures Canonical(l + "::" + r) && (Lacks(l + "::" + r, '.') <==> Lacks(r, '.'))
  {
    CanonicalAcross(l, ':', []);
    CanonicalAcross(l + [':'] + [], ':', r);
    LacksBehind(l, "::", '.');
    LacksBehind(l + "::", r, '.');
    assert l + "::" + r == l + [':'] + [] + [':'] + r;
  }

  /** The text is in the form of RFC 5952, and has dots exactly if an IPv4 address is embedded. */
  lemma TextCanonical(w: seq<word>, run: Run)
    requires Fits(w, run)
    ensures Canonical(Text(w, run)) && ('.' in Text(w, run) <==> Embedded(w, run))
  {
    match run {
      case NoRun => PiecesCanonical(w);
      case Run(base, len) =>
        PiecesCanonical(w[..base]);
        RightCanonical(w, run);
        AcrossGap(Join(Pieces(w[..base]), ':'), Join(Right(w, run), ':'));
    }
  }

  /** What is left out is the run: on the two sides of `::` stand just the groups before and behind it. */
  lemma TextShows(w: seq<word>, run: Run)
    requires Fits(w, run)
    ensures match run
            case NoRun => Gap(Text(w, run)) == None && ReadGroups(Text(w, run), true) == Some(w)
            case Run(base, len) =>
              var g := Gap(Text(w, run));
              && g.Some? && ReadGroups(Text(w, run)[..g.value], false) == Some(w[..base])
              && ReadGroups(Text(w, run)[g.value + 2..], true) == Some(w[base + len..])
  {
    match run {
      case NoRun =>
        PiecesRoundTrip(w, true);
        JoinNoGap(Pieces(w));
        GapNone(Join(Pieces(w), ':'));
        GroupsRoundTrip(Pieces(w), w, true);
      case Run(base, len) =>
        var l, r := Join(Pieces(w[..base]), ':'), Join(Right(w, run), ':');
        PiecesRoundTrip(w[..base], false);
        JoinNoGap(Pieces(w[..base]));
        GapAt(l, r);
        SlicesAcross(l, r);
        GroupsRoundTrip(Pieces(w[..base]), w[..base], false);
        RightRoundTrip(w, run);
        GroupsRoundTrip(Right(w, run), w[base + len..], true);
    }
  }

  // ---------- writing an address ----------

  /** The eight groups of sixteen bytes. */
  function WordsOf(src: seq<byte>): (w: seq<word>)
    requires |src| == 16
    ensures |w| == 8
  {
    seq(8, i requires 0 <= i < 8 => Pair(src[2 * i], src[2 * i + 1]))
  }

  /** The text determines the bytes. */
  lemma TextDetermines(src: seq<byte>, other: seq<byte>, run: Run, otherRun: Run)
    requires |src| == |other| == 16 && Fits(WordsOf(src), run) && Fits(WordsOf(other), otherRun)
    requires Text(WordsOf(src), run) == Text(WordsOf(other), otherRun)
    ensures src == other
  {
    var w, v := WordsOf(src), WordsOf(other);
    RoundTrip(w, run);
    RoundTrip(v, otherRun);
    WordsDetermine(src, other);
  }

  lemma WordsDetermine(src: seq<byte>, other: seq<byte>)
    requires |src| == |other| == 16 && WordsOf(src) == WordsOf(other)
    ensures src == other
  {
    forall k | 0 <= k < 16
      ensures src[k] == other[k]
    {
      var i := k / 2;
      assert WordsOf(src)[i] == WordsOf(other)[i];
      PairInjective(src[2 * i], src[2 * i + 1], other[2 * i], other[2 * i + 1]);
    }
  }

  lemma PairInjective(a: byte, b: byte, c: byte, d: byte)
    requires Pair(a, b) == Pair(c, d)
    ensures a == c && b == d
  {
  }

  /** Ten zero bytes, and then two more zeros before a group that is not zero, or two bytes 255. */
  predicate EmbeddedBytes(src: seq<byte>)
    requires |src| == 16
  {
    && (forall i :: 0 <= i < 10 ==> src[i] == 0)
    && ((src[10] == src[11] == 0 && (src[12] != 0 || src[13] != 0)) || src[10] == src[11] == 0xff)
  }

  lemma WordIsZero(src: seq<byte>, i: nat)
    requires |src| == 16 && i < 8
    ensures WordsOf(src)[i] == 0 <==> src[2 * i] == src[2 * i + 1] == 0
    ensures WordsOf(src)[i] == 0xffff <==> src[2 * i] == src[2 * i + 1] == 0xff
  {
    var h: nat, l: nat := src[2 * i], src[2 * i + 1];
  }

  lemma TenZeros(src: seq<byte>)
    requires |src| == 16
    ensures ZeroRun(WordsOf(src), 0, 5) <==> forall i :: 0 <= i < 10 ==> src[i] == 0
  {
    WordIsZero(src, 0);
    WordIsZero(src, 1);
    WordIsZero(src, 2);
    WordIsZero(src, 3);
    WordIsZero(src, 4);
  }

  lemma EmbeddedWords(w: seq<word>, run: Run)
    requires |w| == 8 && Best(w, run)
    ensures Embedded(w, run) <==> ZeroRun(w, 0, 5) && ((w[5] == 0 && w[6] != 0) || w[5] == 0xffff)
  {
    assert ZeroRun(w, 0, 7) <==> ZeroRun(w, 0, 6) && w[6] == 0;
    if ZeroRun(w, 0, 5) && w[5] == 0 && w[6] != 0 {
      assert Best(w, Run(0, 6));
      BestUnique(w, run, Run(0, 6));
    } else if ZeroRun(w, 0, 5) && w[5] == 0xffff {
      assert Best(w, Run(0, 5));
      BestUnique(w, run, Run(0, 5));
    }
  }

  /** The text that is printed has dots exactly for the addresses that stand for an IPv4 address. */
  lemma DotsExact(src: seq<byte>, run: Run)
    requires |src| == 16 && Best(WordsOf(src), run)
    ensures Fits(WordsOf(src), run) && ('.' in Text(WordsOf(src), run) <==> EmbeddedBytes(src))
  {
    TextCanonical(WordsOf(src), run);
    EmbeddedWords(WordsOf(src), run);
    TenZeros(src);
    WordIsZero(src, 5);
    WordIsZero(src, 6);
  }

  /** A text that reads as the address, in the form of RFC 5952, with dots exactly for addresses that stand for an IPv4 one. */
  predicate Printed(src: seq<byte>, text: string) {
    |src| == 16 && Read(text) == Some(WordsOf(src)) && Canonical(text) && ('.' in text <==> EmbeddedBytes(src))
  }

  lemma TextPrinted(src: seq<byte>, run: Run)
    requires |src| == 16 && Best(WordsOf(src), run)
    ensures Fits(WordsOf(src), run) && Printed(src, Text(WordsOf(src), run))
  {
    RoundTrip(WordsOf(src), run);
    TextCanonical(WordsOf(src), run);
    DotsExact(src, run);
  }

  /** Copies the bytes into groups. */
  method ToWords(src: array<byte>) returns (words: array<word>)
    requires src.Length == 16
    ensures fresh(words) && words.Length == 8 && words[..] == WordsOf(src[..])
  {
    words := new word[8](_ => 0);
    for i := 0 to 16
      invariant forall j :: 0 <= j < i / 2 ==> words[j] == Pair(src[2 * j], src[2 * j + 1])
      invariant i % 2 == 1 ==> words[i / 2] == Pair(src[i - 1], 0)
      invariant forall j :: (i + 1) / 2 <= j < 8 ==> words[j] == 0
    {
      var b: nat, w: nat := src[i], words[i / 2];
      words[i / 2] := if i % 2 == 0 then w + b * 0x100 else w + b;
    }
  }

  /** How runs compare: longer is better, and of equally long ones the first. */
  predicate NotBetter(b: int, l: int, base: int, len: int) {
    l < len || (l == len && base <= b)
  }

  /** The search for the run to leave out. */
  method LongestRun(words: seq<word>) returns (best: Run)
    ensures Best(words, best)
  {
    var bestBase, bestLen, curBase, curLen := -1, 0, -1, 0;
    for i := 0 to |words|
      invariant -1 <= curBase < i && (curBase >= 0 ==> curLen == i - curBase && ZeroRun(words, curBase, curLen))
      invariant curBase > 0 ==> words[curBase - 1] != 0
      invariant curBase == -1 && i > 0 ==> words[i - 1] != 0
      invariant bestBase >= 0 ==> bestLen >= 1 && ZeroRun(words, bestBase, bestLen)
      invariant -1 <= bestBase && (bestBase >= 0 ==> bestBase + bestLen <= if curBase >= 0 then curBase else i)
      invariant forall b: nat, l: nat :: l >= 1 && ZeroRun(words, b, l) && b + l <= i ==>
                  (0 <= curBase <= b) || (bestBase >= 0 && NotBetter(b, l, bestBase, bestLen))
    {
      ghost var cur0, best0, len0 := curBase, bestBase, bestLen;
      if words[i] == 0 {
        if curBase == -1 {
          curBase, curLen := i, 1;
        } else {
          curLen := curLen + 1;
        }
      } else {
        if curBase != -1 {
          if bestBase == -1 || curLen > bestLen {
            bestBase, bestLen := curBase, curLen;
          }
          curBase := -1;
        }
      }
      forall b: nat, l: nat | l >= 1 && ZeroRun(words, b, l) && b + l <= i + 1
        ensures (0 <= curBase <= b) || (bestBase >= 0 && NotBetter(b, l, bestBase, bestLen))
      {
      }
    }
    if curBase != -1 {
      if bestBase == -1 || curLen > bestLen {
        bestBase, bestLen := curBase, curLen;
      }
    }
    best := if bestBase == -1 || bestLen < 2 then NoRun else Run(bestBase, bestLen);
  }

  /** What the formatting loop has written before group `i`. */
  function Written(w: seq<word>, run: Run, i: nat): string
    requires Fits(w, run) && i <= 8
  {
    if run == NoRun || i <= run.base then Join(Pieces(w[..i]), ':')
    else if i <= run.base + run.len then Join(Pieces(w[..run.base]), ':') + ":"
    else Join(Pieces(w[..run.base]), ':') + "::" + Join(Pieces(w[run.base + run.len..i]), ':')
  }

  predicate Inside(run: Run, i: nat) {
    run.Run? && run.base <= i < run.base + run.len
  }

  lemma WrittenInside(w: seq<word>, run: Run, i: nat)
    requires Fits(w, run) && Inside(run, i)
    ensures Written(w, run, i + 1) == Written(w, run, i) + if i == run.base then ":" else ""
  {
  }

  lemma PiecesNext(w: seq<word>, from: nat, i: nat)
    requires from <= i < |w|
    ensures Join(Pieces(w[from..i + 1]), ':') == Join(Pieces(w[from..i]), ':') + (if i == from then "" else ":") + Hex(w[i])
  {
    assert Pieces(w[from..i + 1]) == Pieces(w[from..i]) + [Hex(w[i])];
    JoinAppend(Pieces(w[from..i]), Hex(w[i]), ':');
  }

  lemma WrittenOutside(w: seq<word>, run: Run, i: nat)
    requires Fits(w, run) && i < 8 && !Inside(run, i)
    ensures Written(w, run, i + 1) == Written(w, run, i) + (if i == 0 then "" else ":") + Hex(w[i])
  {
    if run == NoRun || i < run.base {
      PiecesNext(w, 0, i);
    } else {
      var left, from := Join(Pieces(w[..run.base]), ':'), run.base + run.len;
      PiecesNext(w, from, i);
      if i == from {
        AfterGap(left, [], Hex(w[i]));
      } else {
        AfterGap(left, Join(Pieces(w[from..i]), ':'), Hex(w[i]));
      }
    }
  }

  lemma AfterGap(left: string, middle: string, s: string)
    ensures left + "::" + (middle + ":" + s) == left + "::" + middle + ":" + s
    ensures left + "::" + s == left + ":" + ":" + s
  {
  }

  /** The text without an embedded IPv4 address; a run that ends it gets its second colon last. */
  lemma WrittenEnd(w: seq<word>, run: Run)
    requires Fits(w, run) && !Embedded(w, run)
    ensures Text(w, run) == Written(w, run, 8) + LastColon(run)
  {
    assert w[..8] == w;
    if run.Run? {
      assert w[run.base + run.len..8] == w[run.base + run.len..];
    }
  }

  /** The text with one is finished at the seventh group. */
  lemma WrittenEmbedded(w: seq<word>, run: Run)
    requires Fits(w, run) && Embedded(w, run)
    ensures Text(w, run) == Written(w, run, 6) + ":" + Dotted(w[6], w[7])
    ensures |Written(w, run, 6)| <= 6
  {
    if run.len == 5 {
      EmbeddedFive(w, run, Dotted(w[6], w[7]));
    } else {
      EmbeddedSix(w, run, Dotted(w[6], w[7]));
    }
  }

  lemma EmbeddedSix(w: seq<word>, run: Run, last: string)
    requires Fits(w, run) && run == Run(0, 6) && last == Dotted(w[6], w[7])
    ensures Text(w, run) == Written(w, run, 6) + ":" + last && Written(w, run, 6) == ":"
  {
    var left, right := Pieces(w[..0]), Right(w, run);
    assert left == [] && Join(left, ':') == [];
    assert |right| == 1 && right[0] == last && Join(right, ':') == last;
  }

  lemma EmbeddedFive(w: seq<word>, run: Run, last: string)
    requires Fits(w, run) && run == Run(0, 5) && w[5] == 0xffff && last == Dotted(w[6], w[7])
    ensures Text(w, run) == Written(w, run, 6) + ":" + last && |Written(w, run, 6)| <= 6
  {
    var left, fifth := Pieces(w[..0]), Join(Pieces(w[5..6]), ':');
    assert left == [] && Join(left, ':') == [];
    FifthGroup(w, last);
    assert Right(w, run) == Pieces(w[5..6]) + [last];
    assert Written(w, run, 6) == "::" + fifth;
  }

  lemma FifthGroup(w: seq<word>, last: string)
    requires |w| == 8
    ensures Join(Pieces(w[5..6]) + [last], ':') == Join(Pieces(w[5..6]), ':') + ":" + last
    ensures |Join(Pieces(w[5..6]), ':')| <= 4
  {
    JoinAppend(Pieces(w[5..6]), last, ':');
    PiecesNext(w, 5, 5);
    assert w[5..5] == [];
    HexLength(w[5]);
  }

  /** Puts a string where the output pointer stands. */
  method Put(tmp: array<char>, tp: nat, s: string) returns (next: nat)
    requires tp + |s| <= tmp.Length
    modifies tmp
    ensures next == tp + |s| && tmp[..next] == old(tmp[..tp]) + s
  {
    forall k | 0 <= k < |s| {
      tmp[tp + k] := s[k];
    }
    next := tp + |s|;
    assert tmp[..tp] == old(tmp[..tp]) && tmp[tp..next] == s;
    assert tmp[..next] == tmp[..tp] + tmp[tp..next];
  }

  const TMP_SIZE: nat := 46

  /** The test for an IPv4 address; a run of seven groups never reaches it, as it covers the group where it is made. */
  predicate Encapsulated(w: seq<word>, run: Run)
    requires |w| == 8
  {
    run.Run? && run.base == 0 && (run.len == 6 || (run.len == 7 && w[7] != 1) || (run.len == 5 && w[5] == 0xffff))
  }

  /** The second colon of a run that ends the address. */
  function LastColon(run: Run): string {
    if run.Run? && run.base + run.len == 8 then ":" else ""
  }

  /** The text of an address and its terminator. The buffer is long enough for every address. */
  method Format(src: array<byte>, w: seq<word>, run: Run, tmp: array<char>) returns (tp: nat)
    requires src.Length == 16 && w == WordsOf(src[..]) && Fits(w, run) && tmp.Length == TMP_SIZE
    modifies tmp
    ensures 0 < tp <= TMP_SIZE && tmp[..tp] == Text(w, run) + ['\0']
  {
    tp := PutGroups(src, w, run, tmp);
    if run.Run? && run.base + run.len == 8 {
      tp := Put(tmp, tp, ":");
    }
    tp := Put(tmp, tp, "\0");
  }

  /** The formatting loop. */
  method PutGroups(src: array<byte>, w: seq<word>, run: Run, tmp: array<char>) returns (tp: nat)
    requires src.Length == 16 && w == WordsOf(src[..]) && Fits(w, run) && tmp.Length == TMP_SIZE
    modifies tmp
    ensures tp <= TMP_SIZE - 2 && Text(w, run) == tmp[..tp] + LastColon(run)
  {
    tp := 0;
    var i := 0;
    while i < 8
      invariant i <= 8 && tp <= 5 * i && tmp[..tp] == Written(w, run, i)
      invariant i > 6 ==> !Embedded(w, run)
    {
      if Inside(run, i) {
        tp := Skip(w, run, i, tmp, tp);
        i := i + 1;
        continue;
      }
      if i == 6 && Encapsulated(w, run) {
        WrittenEmbedded(w, run);
        tp := Put(tmp, tp, ":");
        tp := PutDotted(src, w, tmp, tp);
        return;
      }
      tp := PutGroup(w, run, i, tmp, tp);
      i := i + 1;
    }
    WrittenEnd(w, run);
  }

  /** One turn of the loop inside the run. */
  method Skip(w: seq<word>, run: Run, i: nat, tmp: array<char>, tp: nat) returns (next: nat)
    requires Fits(w, run) && Inside(run, i) && tmp.Length == TMP_SIZE && tp <= 5 * i && tmp[..tp] == Written(w, run, i)
    modifies tmp
    ensures next <= 5 * (i + 1) && tmp[..next] == Written(w, run, i + 1)
  {
    WrittenInside(w, run, i);
    next := tp;
    if i == run.base {
      next := Put(tmp, tp, ":");
    }
  }

  /** One turn of the loop outside it. */
  method PutGroup(w: seq<word>, run: Run, i: nat, tmp: array<char>, tp: nat) returns (next: nat)
    requires Fits(w, run) && i < 8 && !Inside(run, i)
    requires tmp.Length == TMP_SIZE && tp <= 5 * i && tmp[..tp] == Written(w, run, i)
    modifies tmp
    ensures next <= 5 * (i + 1) && tmp[..next] == Written(w, run, i + 1)
  {
    WrittenOutside(w, run, i);
    HexLength(w[i]);
    next := tp;
    if i != 0 {
      next := Put(tmp, next, ":");
    }
    next := Put(tmp, next, Hex(w[i]));
  }

  // ---------- IPv4 addresses ----------

  function Text4(b: seq<byte>): string
    requires |b| == 4
  {
    Join([Decimal(b[0]), Decimal(b[1]), Decimal(b[2]), Decimal(b[3])], '.')
  }

  lemma Text4Length(b: seq<byte>)
    requires |b| == 4
    ensures 0 < |Text4(b)| <= 15 && Lacks(Text4(b), '\0')
  {
    forall n: byte
      ensures AreDigits(Decimal(n)) && |Decimal(n)| <= 3
    {
      ByteRoundTrip(n);
      DecimalLength(n);
    }
    FourAcross(Decimal(b[0]), Decimal(b[1]), Decimal(b[2]), Decimal(b[3]));
    JoinFour(Decimal(b[0]), Decimal(b[1]), Decimal(b[2]), Decimal(b[3]), '.');
  }

  /** The text, filled up with zeros, where it fits with room for a terminator; nothing otherwise. */
  method InetNtop4(src: seq<byte>, dst: array<char>, at: nat, size: nat) returns (ok: bool)
    requires |src| == 4 && at + size <= dst.Length
    modifies dst
    ensures ok <==> |Text4(src)| < size
    ensures ok ==> forall k :: at <= k < at + size ==> dst[k] == if k < at + |Text4(src)| then Text4(src)[k - at] else '\0'
    ensures dst[..at] == old(dst[..at]) && dst[at + size..] == old(dst[at + size..])
    ensures !ok ==> dst[..] == old(dst[..])
  {
    var tmp := Text4(src);
    var l := |tmp|;
    Text4Length(src);
    if l <= 0 || l >= size {
      return false;
    }
    forall k | 0 <= k < size {
      dst[at + k] := if k < l then tmp[k] else '\0';
    }
    ok := true;
  }

  /** `strlen`. */
  method StrLen(s: array<char>, at: nat, ghost text: string) returns (n: nat)
    requires at + |text| < s.Length && s[at + |text|] == '\0' && Lacks(text, '\0')
    requires forall k :: at <= k < at + |text| ==> s[k] == text[k - at]
    ensures n == |text|
  {
    n := 0;
    while s[at + n] != '\0'
      invariant n <= |text|
      decreases |text| - n
    {
      n := n + 1;
    }
  }

  lemma TextIsDotted(src: seq<byte>)
    requires |src| == 16
    ensures Text4(src[12..]) == Dotted(WordsOf(src)[6], WordsOf(src)[7])
  {
    UnPair(src[12], src[13]);
    UnPair(src[14], src[15]);
  }

  lemma UnPair(a: byte, b: byte)
    ensures High(Pair(a, b)) == a && Low(Pair(a, b)) == b
  {
  }

  /** The last four bytes as an IPv4 address; there is always room for one. */
  method PutDotted(src: array<byte>, w: seq<word>, tmp: array<char>, tp: nat) returns (next: nat)
    requires src.Length == 16 && w == WordsOf(src[..]) && tmp.Length == TMP_SIZE && tp <= 7
    modifies tmp
    ensures next <= tp + 15 && tmp[..next] == old(tmp[..tp]) + Dotted(w[6], w[7])
  {
    ghost var text := Text4(src[12..]);
    Text4Length(src[12..]);
    TextIsDotted(src[..]);
    assert src[..][12..] == src[12..];
    var ok := InetNtop4(src[12..], tmp, tp, TMP_SIZE - tp);
    var n := StrLen(tmp, tp, text);
    next := tp + n;
    PrefixGrows(tmp[..], tp, text);
    assert tmp[..][..next] == tmp[..next] && tmp[..][..tp] == tmp[..tp];
  }

  lemma PrefixGrows(b: seq<char>, at: nat, text: string)
    requires at + |text| <= |b| && forall k :: at <= k < at + |text| ==> b[k] == text[k - at]
    ensures b[..at + |text|] == b[..at] + text
  {
  }

  /** The text of the address with the leftmost longest run of zero groups left out, if it fits with its terminator;
      nothing otherwise. */
  method InetNtop6(src: array<byte>, dst: array<char>, size: nat) returns (ok: bool, ghost run: Run)
    requires src.Length == 16 && size <= dst.Length
    modifies dst
    ensures Best(WordsOf(old(src[..])), run) && Fits(WordsOf(old(src[..])), run)
    ensures Printed(old(src[..]), Text(WordsOf(old(src[..])), run))
    ensures var text := Text(WordsOf(old(src[..])), run);
            && |text| + 1 <= TMP_SIZE && (ok <==> |text| + 1 <= size)
            && dst[..] == if ok then text + ['\0'] + old(dst[..])[|text| + 1..] else old(dst[..])
  {
    var tmp := new char[TMP_SIZE];
    var words := ToWords(src);
    var w := words[..];
    var best := LongestRun(w);
    run := best;
    TextPrinted(src[..], run);
    var tp := Format(src, w, best, tmp);
    if tp > size {
      return false, run;
    }
    StrCpy(tmp, tp, dst);
    ok := true;
  }

  /** `strcpy` of a text of `n` characters, its terminator included. */
  method StrCpy(tmp: array<char>, n: nat, dst: array<char>)
    requires n <= tmp.Length && n <= dst.Length && tmp != dst
    modifies dst
    ensures dst[..] == tmp[..n] + old(dst[..])[n..]
  {
    forall k | 0 <= k < n {
      dst[k] := tmp[k];
    }
  }
}
