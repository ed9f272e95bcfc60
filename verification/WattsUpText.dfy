/** The text of a Watts Up packet: what is written for a packet, and what is read back from any text. */
module WattsUpText {
  import opened Sequences

  const NUL := '\0'
  const NUM_FIELDS := 18
  const COMMA := {','}
  const DELIMITERS := {',', ';'}

  /** The first position from i on that holds one of the given characters, or the end. */
  function Find(b: string, i: nat, stop: set<char>): (k: nat)
    requires i <= |b|
    ensures i <= k <= |b|
    decreases |b| - i
  {
    if i == |b| || b[i] in stop then i else Find(b, i + 1, stop)
  }

  predicate IsSpace(c: char) {
    c == ' ' || '\t' <= c <= '\r'
  }

  function Strip(s: string): string {
    if s != [] && IsSpace(s[0]) then Strip(s[1..]) else s
  }

  predicate IsDigit(c: char) {
    '0' <= c <= '9'
  }

  function Digits(s: string, acc: int): int {
    if s != [] && IsDigit(s[0]) then Digits(s[1..], 10 * acc + (s[0] as int - '0' as int)) else acc
  }

  /** atoi: leading white space, a sign, digits. */
  function Atoi(s: string): int {
    var t := Strip(s);
    if t != [] && t[0] == '-' then -Digits(t[1..], 0)
    else if t != [] && t[0] == '+' then Digits(t[1..], 0)
    else Digits(t, 0)
  }

  /** An int kept as an unsigned number; C leaves open what atoi gives for text beyond the range of int. */
  function Unsigned(n: int): nat {
    if n >= 0 then n else if n >= -0x8000_0000 then n + 0x1_0000_0000 else 0
  }

  /** The result of a parse: a packet, a rejected text, or more fields than there is room for. */
  datatype Parsed = Packet(cmd: char, sub: char, count: nat, fields: seq<string>) | Fault | Overrun

  datatype Split = Fields(fields: seq<string>) | BadField | TooMany

  function Cons(f: string, more: Split): Split {
    if more.Fields? then Fields([f] + more.fields) else more
  }

  /** Field i of n, which starts at p, and those after it; only the last may lack its delimiter. */
  function SplitFields(b: string, p: nat, i: nat, n: nat): Split
    requires p <= |b|
    decreases n - i
  {
    if i >= n then Fields([])
    else
      var k := Find(b, p, DELIMITERS);
      if k == |b| && i < n - 1 then BadField
      else if i >= NUM_FIELDS then TooMany
      else Cons(Strip(b[p..k]), if k == |b| then Fields([]) else SplitFields(b, k + 1, i + 1, n))
  }

  function Finish(cmd: char, sub: char, count: nat, split: Split): Parsed {
    match split
    case Fields(fields) => Packet(cmd, sub, count, fields)
    case BadField => Fault
    case TooMany => Overrun
  }

  /** The count, from u up to the next comma, then the fields. */
  function ParseCount(b: string, u: nat, cmd: char, sub: char): Parsed
    requires u <= |b|
  {
    var e := Find(b, u, COMMA);
    if e == |b| then Fault
    else
      var count := Unsigned(Atoi(b[u..e]));
      Finish(cmd, sub, count, SplitFields(b, e + 1, 0, count))
  }

  /** The sub-command is the first character of its part. */
  function ParseSub(b: string, t: nat, cmd: char): Parsed
    requires t <= |b|
  {
    var d := Find(b, t, COMMA);
    if d == |b| then Fault else ParseCount(b, d + 1, cmd, b[t])
  }

  /** And so is the command. */
  function ParseCommand(b: string, s: nat): Parsed
    requires s <= |b|
  {
    var c := Find(b, s, COMMA);
    if c == |b| then Fault else ParseSub(b, c + 1, b[s])
  }

  /** What parse_packet makes of a text: everything before the marker is skipped. */
  function Parse(b: string): Parsed {
    var h := Find(b, 0, {'#'});
    if h == |b| then Fault else ParseCommand(b, h + 1)
  }

  function Decimal(n: nat): (s: string)
    ensures s != []
  {
    (if n < 10 then [] else Decimal(n / 10)) + [(n % 10 + '0' as int) as char]
  }

  /** The fields, each behind a comma. */
  function Joined(fields: seq<string>): string {
    if fields == [] then [] else Joined(fields[..|fields| - 1]) + [','] + fields[|fields| - 1]
  }

  function Header(cmd: char, sub: char, n: nat): string {
    ['#', cmd, ',', sub, ','] + Decimal(n)
  }

  function Written(cmd: char, sub: char, fields: seq<string>): string {
    Header(cmd, sub, |fields|) + Joined(fields) + [';']
  }

  predicate Plain(c: char) {
    c != ',' && c != NUL
  }

  predicate Without(s: string, stop: set<char>) {
    forall i | 0 <= i < |s| :: s[i] !in stop
  }

  /** No delimiter inside and no white space in front. */
  predicate Clean(s: string) {
    Without(s, DELIMITERS) && (s != [] ==> !IsSpace(s[0]))
  }

  predicate AllClean(fields: seq<string>) {
    forall i | 0 <= i < |fields| :: Clean(fields[i])
  }

  lemma {:induction false} FindIs(b: string, i: nat, stop: set<char>, k: nat)
    requires i <= k <= |b| && (forall j | i <= j < k :: b[j] !in stop) && (k < |b| ==> b[k] in stop)
    ensures Find(b, i, stop) == k
    decreases k - i
  {
    if i < k {
      FindIs(b, i + 1, stop, k);
    }
  }

  lemma {:induction false} FindFinds(b: string, i: nat, stop: set<char>)
    requires i <= |b|
    ensures var k := Find(b, i, stop); Without(b[i..k], stop) && (k < |b| ==> b[k] in stop)
    decreases |b| - i
  {
    if i < |b| && b[i] !in stop {
      FindFinds(b, i + 1, stop);
      var k := Find(b, i, stop);
      assert b[i..k] == [b[i]] + b[i + 1..k];
    }
  }

  lemma {:induction false} StripClean(s: string)
    requires Without(s, DELIMITERS)
    ensures Clean(Strip(s))
  {
    if s != [] && IsSpace(s[0]) {
      StripClean(s[1..]);
    }
  }

  /** Every field that is ever read back is clean. */
  lemma {:induction false} FieldsAreClean(b: string, p: nat, i: nat, n: nat)
    requires p <= |b|
    ensures var r := SplitFields(b, p, i, n); r.Fields? ==> AllClean(r.fields)
    decreases n - i
  {
    if i < n {
      var k := Find(b, p, DELIMITERS);
      FindFinds(b, p, DELIMITERS);
      StripClean(b[p..k]);
      if k < |b| {
        FieldsAreClean(b, k + 1, i + 1, n);
      }
    }
  }

  /** Behind the header: the fields with commas between them and a semicolon at the end. */
  function Tail(fields: seq<string>): string
    requires fields != []
  {
    fields[0] + if |fields| == 1 then [';'] else [','] + Tail(fields[1..])
  }

  lemma {:induction false} JoinedFront(fields: seq<string>)
    requires fields != []
    ensures Joined(fields) == [','] + fields[0] + Joined(fields[1..])
  {
    var n := |fields| - 1;
    if n > 0 {
      JoinedFront(fields[..n]);
      assert fields[..n][1..] == fields[1..][..n - 1];
      assert Joined(fields[1..]) == Joined(fields[1..][..n - 1]) + [','] + fields[n];
    }
  }

  lemma {:induction false} JoinedTail(fields: seq<string>)
    requires fields != []
    ensures Joined(fields) + [';'] == [','] + Tail(fields)
  {
    JoinedFront(fields);
    if |fields| > 1 {
      JoinedTail(fields[1..]);
      assert Joined(fields) + [';'] == [','] + fields[0] + (Joined(fields[1..]) + [';']);
    }
  }

  /** A clean field that ends in a delimiter is read as it stands. */
  lemma FieldStep(b: string, p: nat, f: string, i: nat, n: nat)
    requires Clean(f) && p + |f| < |b| && b[p..p + |f|] == f && b[p + |f|] in DELIMITERS && i < n && i < NUM_FIELDS
    ensures SplitFields(b, p, i, n) == Cons(f, SplitFields(b, p + |f| + 1, i + 1, n))
  {
    assert forall j | p <= j < p + |f| :: b[j] == f[j - p];
    FindIs(b, p, DELIMITERS, p + |f|);
  }

  /** The fields stand at p, with commas between them and a semicolon behind the last. */
  predicate TailAt(b: string, p: nat, fields: seq<string>)
    requires fields != []
    decreases |fields|
  {
    var e := p + |fields[0]|;
    && e < |b| && b[p..e] == fields[0]
    && if |fields| == 1 then b[e] == ';' else b[e] == ',' && TailAt(b, e + 1, fields[1..])
  }

  lemma {:induction false} TailStands(pre: string, fields: seq<string>)
    requires fields != []
    ensures TailAt(pre + Tail(fields), |pre|, fields)
    decreases |fields|
  {
    if |fields| > 1 {
      TailStands(pre + fields[0] + [','], fields[1..]);
      assert pre + Tail(fields) == (pre + fields[0] + [',']) + Tail(fields[1..]);
    }
  }

  /** Clean fields are read back from where they stand. */
  lemma {:induction false} FieldsReturn(b: string, p: nat, fields: seq<string>, i: nat)
    requires fields != [] && i + |fields| <= NUM_FIELDS && AllClean(fields) && TailAt(b, p, fields)
    ensures SplitFields(b, p, i, i + |fields|) == Fields(fields)
    decreases |fields|
  {
    var f, n := fields[0], i + |fields|;
    FieldStep(b, p, f, i, n);
    if |fields| > 1 {
      FieldsReturn(b, p + |f| + 1, fields[1..], i + 1);
      assert fields == [f] + fields[1..];
    } else {
      assert fields == [f];
    }
  }

  lemma {:induction false} DigitsOf(s: string, t: string, acc: int)
    requires forall i | 0 <= i < |s| :: IsDigit(s[i])
    ensures Digits(s + t, acc) == Digits(t, Digits(s, acc))
  {
    if s == [] {
      assert s + t == t;
    } else {
      DigitsOf(s[1..], t, 10 * acc + (s[0] as int - '0' as int));
      assert (s + t)[1..] == s[1..] + t;
    }
  }

  lemma {:induction false} DecimalDigits(n: nat)
    ensures (forall i | 0 <= i < |Decimal(n)| :: IsDigit(Decimal(n)[i])) && Digits(Decimal(n), 0) == n
  {
    var last := [(n % 10 + '0' as int) as char];
    if n >= 10 {
      DecimalDigits(n / 10);
      DigitsOf(Decimal(n / 10), last, 0);
    }
    assert last[1..] == [];
  }

  /** A printed number is read back. */
  lemma AtoiDecimal(n: nat)
    ensures Atoi(Decimal(n)) == n
  {
    DecimalDigits(n);
    assert IsDigit(Decimal(n)[0]);
  }

  /** The marker and the commas, where the header puts them. */
  lemma HeaderCommas(cmd: char, sub: char, n: nat, rest: string)
    ensures var b := Header(cmd, sub, n) + ([','] + rest);
      && Find(b, 0, {'#'}) == 0
      && (cmd != ',' ==> Find(b, 1, COMMA) == 2) && (cmd == ',' ==> Find(b, 1, COMMA) == 1 && Find(b, 2, COMMA) == 2)
      && (sub != ',' ==> Find(b, 3, COMMA) == 4) && (sub == ',' ==> Find(b, 3, COMMA) == 3 && Find(b, 4, COMMA) == 4)
      && Find(b, 5, COMMA) == |Decimal(n)| + 5 && b[5..|Decimal(n)| + 5] == Decimal(n)
  {
    var b := Header(cmd, sub, n) + ([','] + rest);
    assert b[0] == '#' && b[1] == cmd && b[2] == ',' && b[3] == sub && b[4] == ',';
    DecimalDigits(n);
    assert forall j | 5 <= j < |Decimal(n)| + 5 :: b[j] == Decimal(n)[j - 5];
    FindIs(b, 5, COMMA, |Decimal(n)| + 5);
  }

  lemma CountAt(b: string, u: nat, e: nat, cmd: char, sub: char)
    requires u <= e < |b| && Find(b, u, COMMA) == e
    ensures var count := Unsigned(Atoi(b[u..e]));
      ParseCount(b, u, cmd, sub) == Finish(cmd, sub, count, SplitFields(b, e + 1, 0, count))
  {
  }

  lemma SubAt(b: string, t: nat, d: nat, cmd: char)
    requires t <= d < |b| && Find(b, t, COMMA) == d
    ensures ParseSub(b, t, cmd) == ParseCount(b, d + 1, cmd, b[t])
  {
  }

  lemma CommandAt(b: string, s: nat, c: nat)
    requires s <= c < |b| && Find(b, s, COMMA) == c
    ensures ParseCommand(b, s) == ParseSub(b, c + 1, b[s])
  {
  }

  lemma MarkerAt(b: string, h: nat)
    requires h < |b| && Find(b, 0, {'#'}) == h
    ensures Parse(b) == ParseCommand(b, h + 1)
  {
  }

  /** A parse whose commas are known. */
  lemma ParseAt(b: string, c: nat, d: nat, e: nat)
    requires 0 < c < d < e < |b| && Find(b, 0, {'#'}) == 0 && Find(b, 1, COMMA) == c
    requires Find(b, c + 1, COMMA) == d && Find(b, d + 1, COMMA) == e
    ensures var count := Unsigned(Atoi(b[d + 1..e]));
      Parse(b) == Finish(b[1], b[c + 1], count, SplitFields(b, e + 1, 0, count))
  {
    MarkerAt(b, 0);
    CommandAt(b, 1, c);
    SubAt(b, c + 1, d, b[1]);
    CountAt(b, d + 1, e, b[1], b[c + 1]);
  }

  lemma FinishKeeps(cmd: char, sub: char, count: nat, split: Split)
    ensures var r := Finish(cmd, sub, count, split); r.Packet? ==> r.cmd == cmd && r.sub == sub && r.count == count
  {
  }

  lemma HeaderParsed(cmd: char, sub: char, n: nat, rest: string)
    requires cmd != ',' && sub != ','
    ensures var b := Header(cmd, sub, n) + ([','] + rest);
      Parse(b) == Finish(cmd, sub, Unsigned(n), SplitFields(b, |Decimal(n)| + 6, 0, Unsigned(n)))
  {
    var b := Header(cmd, sub, n) + ([','] + rest);
    HeaderCommas(cmd, sub, n, rest);
    AtoiDecimal(n);
    ParseAt(b, 2, 4, |Decimal(n)| + 5);
  }

  /** A comma as command or sub-command leaves an empty count, or the wrong sub-command. */
  lemma CommaLost(cmd: char, sub: char, n: nat, rest: string)
    requires (cmd == ',' || sub == ',') && n >= 1
    ensures var r := Parse(Header(cmd, sub, n) + ([','] + rest)); r.Packet? ==> (r.cmd, r.sub, r.count) != (cmd, sub, n)
  {
    var b := Header(cmd, sub, n) + ([','] + rest);
    HeaderCommas(cmd, sub, n, rest);
    var c := if cmd == ',' then 1 else 2;
    var e := if cmd == ',' then Find(b, 3, COMMA) else 4;
    ParseAt(b, c, c + 1, e);
    var count := Unsigned(Atoi(b[c + 2..e]));
    FinishKeeps(b[1], b[c + 1], count, SplitFields(b, e + 1, 0, count));
    if sub == ',' {
      assert b[c + 2..e] == [];
      assert Atoi([]) == 0;
    }
  }

  /** The C string that starts at an index: everything up to the next NUL or the end. */
  function CString(b: string, i: nat): string
    requires i <= |b|
  {
    b[i..Find(b, i, {NUL})]
  }

  lemma CStringWhole(b: string)
    requires Without(b, {NUL})
    ensures CString(b, 0) == b
  {
    FindIs(b, 0, {NUL}, |b|);
  }

  lemma {:induction false} TailWithoutNul(fields: seq<string>)
    requires fields != [] && forall f | f in fields :: Without(f, {NUL})
    ensures Without(Tail(fields), {NUL})
  {
    assert fields[0] in fields;
    if |fields| > 1 {
      TailWithoutNul(fields[1..]);
    }
  }

  lemma HeaderWithoutNul(cmd: char, sub: char, n: nat)
    requires cmd != NUL && sub != NUL
    ensures Without(Header(cmd, sub, n), {NUL})
  {
    DecimalDigits(n);
    assert Without(Decimal(n), {NUL});
  }

  /** A NUL as command or sub-command cuts the text short before its second comma. */
  lemma NulLost(cmd: char, sub: char, b: string)
    requires (cmd == NUL || sub == NUL) && |b| > 4 && b[..4] == ['#', cmd, ',', sub]
    ensures Parse(CString(b, 0)) == Fault
  {
    assert b[0] == '#' && b[1] == cmd && b[2] == ',' && b[3] == sub;
    FindIs(b, 0, {NUL}, if cmd == NUL then 1 else 3);
    var text := CString(b, 0);
    if cmd == NUL {
      FindIs(text, 1, COMMA, 1);
    } else {
      FindIs(text, 1, COMMA, if cmd == ',' then 1 else 2);
      FindIs(text, 3, COMMA, 3);
      FindIs(text, 2, COMMA, 2);
    }
  }

  lemma WithoutConcat(a: string, b: string, stop: set<char>)
    requires Without(a, stop) && Without(b, stop)
    ensures Without(a + b, stop)
  {
  }

  lemma JoinedWithoutNul(a: string, b: string)
    requires Without(a, {NUL}) && Without(b, {NUL})
    ensures Without(a + ([','] + b), {NUL})
  {
    WithoutConcat([','], b, {NUL});
    WithoutConcat(a, [','] + b, {NUL});
  }

  lemma WrittenIs(cmd: char, sub: char, fields: seq<string>)
    requires fields != []
    ensures Written(cmd, sub, fields) == Header(cmd, sub, |fields|) + ([','] + Tail(fields))
  {
    JoinedTail(fields);
    ConcatAssociates(Header(cmd, sub, |fields|), Joined(fields), [';']);
  }

  /**
   * The shape of a packet: the marker, command, sub-command and count, each behind a comma, then the fields, each
   * behind a comma too, and a semicolon.
   */
  lemma WrittenShape(cmd: char, sub: char, fields: seq<string>)
    ensures var w, n := Written(cmd, sub, fields), Decimal(|fields|);
      && |w| > 5 + |n| && w[..5] == ['#', cmd, ',', sub, ','] && w[5..5 + |n|] == n && w[|w| - 1] == ';'
      && w[5 + |n|..|w| - 1] == Joined(fields)
      && (fields != [] ==> Joined(fields) == [','] + fields[0] + Joined(fields[1..]))
  {
    if fields != [] {
      JoinedFront(fields);
    }
  }

  lemma TextWithoutNul(cmd: char, sub: char, fields: seq<string>)
    requires cmd != NUL && sub != NUL && fields != [] && forall f | f in fields :: Without(f, {NUL})
    ensures Without(Header(cmd, sub, |fields|) + ([','] + Tail(fields)), {NUL})
  {
    TailWithoutNul(fields);
    HeaderWithoutNul(cmd, sub, |fields|);
    JoinedWithoutNul(Header(cmd, sub, |fields|), Tail(fields));
  }

  lemma TailBehind(h: string, fields: seq<string>)
    requires fields != []
    ensures TailAt(h + ([','] + Tail(fields)), |h| + 1, fields)
  {
    TailStands(h + [','], fields);
    ConcatAssociates(h, [','], Tail(fields));
  }

  /** The split of the fields gives them back exactly when they are all clean. */
  lemma SplitExactly(b: string, p: nat, fields: seq<string>)
    requires 1 <= |fields| <= NUM_FIELDS && TailAt(b, p, fields)
    ensures SplitFields(b, p, 0, |fields|) == Fields(fields) <==> AllClean(fields)
  {
    FieldsAreClean(b, p, 0, |fields|);
    if AllClean(fields) {
      FieldsReturn(b, p, fields, 0);
    }
  }

  lemma FinishExactly(cmd: char, sub: char, n: nat, split: Split, fields: seq<string>)
    ensures Finish(cmd, sub, n, split) == Packet(cmd, sub, n, fields) <==> split == Fields(fields)
  {
  }

  lemma PlainParsed(cmd: char, sub: char, fields: seq<string>)
    requires Plain(cmd) && Plain(sub) && 1 <= |fields| <= NUM_FIELDS
    ensures Parse(Header(cmd, sub, |fields|) + ([','] + Tail(fields))) == Packet(cmd, sub, |fields|, fields)
      <==> AllClean(fields)
  {
    var n, h := |fields|, Header(cmd, sub, |fields|);
    var b := h + ([','] + Tail(fields));
    HeaderParsed(cmd, sub, n, Tail(fields));
    TailBehind(h, fields);
    assert |h| + 1 == |Decimal(n)| + 6;
    SplitExactly(b, |h| + 1, fields);
    FinishExactly(cmd, sub, n, SplitFields(b, |h| + 1, 0, n), fields);
  }

  /**
   * Writing and parsing undo each other, for one to eighteen fields, exactly when neither command nor sub-command is
   * a comma or NUL and no field holds a delimiter or starts with white space.
   */
  lemma RoundTripExactly(cmd: char, sub: char, fields: seq<string>)
    requires 1 <= |fields| <= NUM_FIELDS && forall f | f in fields :: Without(f, {NUL})
    ensures Parse(CString(Written(cmd, sub, fields), 0)) == Packet(cmd, sub, |fields|, fields)
      <==> Plain(cmd) && Plain(sub) && AllClean(fields)
  {
    if cmd == NUL || sub == NUL {
      NulLost(cmd, sub, Written(cmd, sub, fields));
    } else {
      WrittenIs(cmd, sub, fields);
      TextWithoutNul(cmd, sub, fields);
      CStringWhole(Written(cmd, sub, fields));
      if cmd == ',' || sub == ',' {
        CommaLost(cmd, sub, |fields|, Tail(fields));
      } else {
        PlainParsed(cmd, sub, fields);
      }
    }
  }
}
