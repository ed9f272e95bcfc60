/** The packet buffer of the Watts Up driver: wu_write fills it, parse_packet cuts it into fields in place. */
module WattsUpPacket {
  import opened WattsUpText

  const BUFFER_SIZE := 256

  /** What a parse leaves: the fields are offsets into the buffer. */
  datatype Reading = Read(cmd: char, sub: char, count: nat, fields: seq<nat>) | Rejected | NoRoom

  /** Field k passes the length test of wu_write. */
  predicate FitsAt(cmd: char, sub: char, fields: seq<string>, k: nat)
    requires k < |fields|
  {
    |Header(cmd, sub, |fields|)| + |Joined(fields[..k])| + |fields[k]| + 4 < BUFFER_SIZE
  }

  lemma JoinedMore(h: string, fields: seq<string>, i: nat)
    requires i < |fields|
    ensures (h + Joined(fields[..i])) + ([','] + fields[i]) == h + Joined(fields[..i + 1])
  {
    assert fields[..i + 1][..i] == fields[..i];
  }

  lemma ShortHeader(cmd: char, sub: char, n: nat)
    requires n < 100
    ensures |Header(cmd, sub, n)| <= 7
  {
    assert n >= 10 ==> Decimal(n / 10) == [((n / 10) % 10 + '0' as int) as char];
  }

  /** A NUL-terminated string stands at an offset. */
  predicate StringAt(b: string, p: nat, s: string) {
    p + |s| < |b| && b[p..p + |s|] == s && b[p + |s|] == NUL && Without(s, {NUL})
  }

  lemma StringAtIs(b: string, p: nat, s: string)
    requires StringAt(b, p, s)
    ensures CString(b, p) == s
  {
    assert forall j | p <= j < p + |s| :: b[j] == s[j - p];
    FindIs(b, p, {NUL}, p + |s|);
  }

  /** From p on, the buffer still holds the text, with a NUL behind it. */
  predicate Ahead(b: string, text: string, p: nat) {
    p <= |text| < |b| && b[p..|text|] == text[p..] && b[|text|] == NUL && Without(text, {NUL})
  }

  lemma AheadAt(b: string, text: string, p: nat, j: nat)
    requires Ahead(b, text, p) && p <= j <= |text|
    ensures j < |text| ==> b[j] == text[j]
    ensures Ahead(b, text, j)
  {
    assert b[j..|text|] == b[p..|text|][j - p..] && text[j..] == text[p..][j - p..];
    assert j < |text| ==> b[p..|text|][j - p] == text[p..][j - p];
  }

  /** A change before p leaves what is ahead. */
  lemma AheadKept(b: string, c: string, text: string, p: nat)
    requires 0 < p && Ahead(b, text, p) && c == b[p - 1 := NUL]
    ensures Ahead(c, text, p)
  {
    assert c[p..|text|] == b[p..|text|];
  }

  lemma AheadSlice(b: string, text: string, p: nat, e: nat)
    requires Ahead(b, text, p) && p <= e <= |text|
    ensures b[p..e] == text[p..e]
  {
    assert text[p..e] == text[p..][..e - p] && b[p..e] == b[p..|text|][..e - p];
  }

  /** The fields found so far, in front of those still to come. */
  function Append(acc: seq<string>, split: Split): Split {
    if split.Fields? then Fields(acc + split.fields) else split
  }

  lemma AppendCons(acc: seq<string>, f: string, more: Split)
    ensures Append(acc, Cons(f, more)) == Append(acc + [f], more)
  {
  }

  /** A string that ends before any change is still there. */
  lemma StringStays(b: string, c: string, p: nat, q: nat, s: string)
    requires StringAt(b, q, s) && q + |s| < p <= |b| && |c| == |b| && c[..p] == b[..p]
    ensures StringAt(c, q, s)
  {
    assert c[q..q + |s|] == c[..p][q..q + |s|] && b[q..q + |s|] == b[..p][q..q + |s|];
    assert c[q + |s|] == c[..p][q + |s|] && b[q + |s|] == b[..p][q + |s|];
  }

  /** The strings at the given offsets. */
  predicate StringsAt(b: string, offsets: seq<nat>, strings: seq<string>) {
    |offsets| == |strings| && forall k | 0 <= k < |offsets| :: StringAt(b, offsets[k], strings[k])
  }

  /** All of them end before p. */
  predicate EndBefore(offsets: seq<nat>, strings: seq<string>, p: nat) {
    |offsets| == |strings| && forall k | 0 <= k < |offsets| :: offsets[k] + |strings[k]| < p
  }

  lemma StringsStay(b: string, c: string, p: nat, offsets: seq<nat>, strings: seq<string>)
    requires StringsAt(b, offsets, strings) && EndBefore(offsets, strings, p) && p <= |b| == |c| && c[..p] == b[..p]
    ensures StringsAt(c, offsets, strings)
  {
    forall k | 0 <= k < |offsets|
      ensures StringAt(c, offsets[k], strings[k])
    {
      StringStays(b, c, p, offsets[k], strings[k]);
    }
  }

  /** The step of the loop in terms of the split. */
  lemma SplitStep(text: string, p: nat, i: nat, n: nat, acc: seq<string>)
    requires p <= |text| && i < n
    ensures var e := Find(text, p, DELIMITERS); var f := Strip(text[p..e]);
      Append(acc, SplitFields(text, p, i, n)) ==
        if e == |text| && i < n - 1 then BadField
        else if i >= NUM_FIELDS then TooMany
        else if e == |text| then Fields(acc + [f])
        else Append(acc + [f], SplitFields(text, e + 1, i + 1, n))
  {
    var e := Find(text, p, DELIMITERS);
    if e < |text| {
      AppendCons(acc, Strip(text[p..e]), SplitFields(text, e + 1, i + 1, n));
    }
  }

  /** Where the field loop stands before field i of n. */
  ghost predicate Progress(b: string, text: string, offsets: seq<nat>, strings: seq<string>, p: nat, i: nat, n: nat,
      all: Split)
  {
    && i <= n && StringsAt(b, offsets, strings)
    && if i == n then all == Fields(strings)
       else Ahead(b, text, p) && EndBefore(offsets, strings, p) && all == Append(strings, SplitFields(text, p, i, n))
  }

  lemma StringsMore(b: string, offsets: seq<nat>, strings: seq<string>, q: nat, f: string)
    requires StringsAt(b, offsets, strings) && StringAt(b, q, f)
    ensures StringsAt(b, offsets + [q], strings + [f])
  {
  }

  lemma EndMore(offsets: seq<nat>, strings: seq<string>, p: nat, q: nat, f: string, e: nat)
    requires EndBefore(offsets, strings, p) && p <= e && q + |f| == e
    ensures EndBefore(offsets + [q], strings + [f], e + 1)
  {
  }

  lemma ProgressStep(b: string, c: string, text: string, offsets: seq<nat>, strings: seq<string>, p: nat, i: nat,
      n: nat, all: Split, q: nat)
    requires Progress(b, text, offsets, strings, p, i, n, all) && i < n && i < NUM_FIELDS && |c| == |b|
      && c[..p] == b[..p]
    requires var e := Find(text, p, DELIMITERS); var f := Strip(text[p..e]);
      && (e < |text| ==> Ahead(c, text, e + 1)) && (e == |text| ==> i == n - 1) && q + |f| == e && StringAt(c, q, f)
    ensures var e := Find(text, p, DELIMITERS);
      Progress(c, text, offsets + [q], strings + [Strip(text[p..e])], e + 1, i + 1, n, all)
  {
    var e := Find(text, p, DELIMITERS);
    var f := Strip(text[p..e]);
    SplitStep(text, p, i, n, strings);
    StringsStay(b, c, p, offsets, strings);
    StringsMore(c, offsets, strings, q, f);
    EndMore(offsets, strings, p, q, f, e);
  }

  /** When the loop gives up, so does the split. */
  lemma ProgressEnds(b: string, text: string, offsets: seq<nat>, strings: seq<string>, p: nat, i: nat, n: nat,
      all: Split)
    requires Progress(b, text, offsets, strings, p, i, n, all) && i < n
    ensures var e := Find(text, p, DELIMITERS);
      if e == |text| && i < n - 1 then all == BadField else i >= NUM_FIELDS ==> all == TooMany
  {
    SplitStep(text, p, i, n, strings);
  }

  lemma ProgressStarts(b: string, text: string, s: nat, n: nat)
    requires Ahead(b, text, s)
    ensures Progress(b, text, [], [], s, 0, n, SplitFields(text, s, 0, n))
  {
  }

  datatype Cut = Done | Malformed | Full

  /** What the loop leaves, compared with the split of the text. */
  ghost predicate Agrees(b: string, cut: Cut, offsets: seq<nat>, split: Split) {
    match split
    case Fields(strings) => cut == Done && StringsAt(b, offsets, strings)
    case BadField => cut == Malformed
    case TooMany => cut == Full
  }

  /**
   * The buffer of a packet, and the byte behind it: the NUL that parse_packet writes lands there when the buffer is
   * full.
   */
  class PacketBuffer {
    const buf: array<char>
    var len: nat

    ghost predicate Valid()
      reads this
    {
      buf.Length == BUFFER_SIZE + 1 && len <= BUFFER_SIZE
    }

    /** Nothing but NULs behind the text. */
    ghost predicate Cleared()
      reads this, buf
    {
      forall k | len <= k < BUFFER_SIZE < buf.Length :: buf[k] == NUL
    }

    constructor ()
      ensures Valid() && fresh(buf)
    {
      buf := new char[BUFFER_SIZE + 1];
      len := 0;
    }

    /** sprintf at the end of what is already there. */
    method Put(s: string)
      requires Valid() && len + |s| < BUFFER_SIZE
      modifies this`len, buf
      ensures Valid() && len == old(len) + |s| && buf[..len] == old(buf[..len]) + s && (old(Cleared()) ==> Cleared())
    {
      for i := 0 to |s|
        invariant len == old(len) && buf[..len + i] == old(buf[..len]) + s[..i]
        invariant forall k | len + i <= k < buf.Length :: buf[k] == old(buf[k])
      {
        buf[len + i] := s[i];
        assert s[..i + 1] == s[..i] + [s[i]];
        assert buf[..len + i + 1] == buf[..len + i] + [s[i]];
      }
      assert s[..|s|] == s;
      buf[len + |s|] := NUL;
      len := len + |s|;
    }

    /** wu_write up to the write itself; false for a packet that is too long. */
    method Write(cmd: char, sub: char, fields: seq<string>) returns (ok: bool)
      requires Valid() && |fields| <= NUM_FIELDS
      modifies this`len, buf
      ensures Valid() && len < BUFFER_SIZE && Cleared()
      ensures ok <==> forall k: nat | k < |fields| :: FitsAt(cmd, sub, fields, k)
      ensures ok ==> buf[..len] == Written(cmd, sub, fields)
    {
      len := 0;
      forall k | 0 <= k < BUFFER_SIZE {
        buf[k] := NUL;
      }
      ShortHeader(cmd, sub, |fields|);
      Put(Header(cmd, sub, |fields|));
      var i := 0;
      while i < |fields|
        invariant i <= |fields| && len + 3 < BUFFER_SIZE
        invariant buf[..len] == Header(cmd, sub, |fields|) + Joined(fields[..i]) && Cleared()
        invariant forall k: nat | k < i :: FitsAt(cmd, sub, fields, k)
      {
        if len + |fields[i]| + 4 >= BUFFER_SIZE {
          assert !FitsAt(cmd, sub, fields, i);
          return false;
        }
        Put([','] + fields[i]);
        JoinedMore(Header(cmd, sub, |fields|), fields, i);
        i := i + 1;
      }
      assert fields[..i] == fields;
      buf[len] := ';';
      len := len + 1;
      return true;
    }

    /** strchr and strpbrk on the text ahead: the next of the given characters, if the text still holds one. */
    method Scan(p: nat, stop: set<char>, ghost text: string) returns (e: nat, found: bool)
      requires Valid() && NUL !in stop && Ahead(buf[..], text, p)
      ensures p <= e == Find(text, p, stop) && found == (e < |text|) && Ahead(buf[..], text, e)
    {
      e := p;
      while buf[e] != NUL && buf[e] !in stop
        invariant p <= e <= |text| && Ahead(buf[..], text, e)
        invariant forall j | p <= j < e :: text[j] !in stop
        decreases |text| - e
      {
        AheadAt(buf[..], text, e, e);
        AheadAt(buf[..], text, e, e + 1);
        e := e + 1;
      }
      found := buf[e] != NUL;
      AheadAt(buf[..], text, e, e);
      FindIs(text, p, stop, e);
    }

    /** Skips the white space in front of a field that ends in a NUL at e. */
    method SkipSpace(p: nat, e: nat, ghost text: string) returns (q: nat)
      requires Valid() && p <= e <= |text| && StringAt(buf[..], p, text[p..e])
      ensures p <= q <= e && Strip(text[p..e]) == text[q..e] && StringAt(buf[..], q, text[q..e])
    {
      q := p;
      while IsSpace(buf[q])
        invariant p <= q <= e && Strip(text[p..e]) == Strip(text[q..e]) && StringAt(buf[..], q, text[q..e])
        decreases e - q
      {
        assert q < e && text[q..e][0] == buf[..][q..e][0];
        assert text[q..e][1..] == text[q + 1..e] && buf[..][q..e][1..] == buf[..][q + 1..e];
        q := q + 1;
      }
      assert q < e ==> text[q..e][0] == buf[..][q..e][0];
    }

    /** One turn of the field loop: cuts the text at the next delimiter and finds where the field starts. */
    method CutOne(p: nat, ghost text: string) returns (e: nat, found: bool, q: nat)
      requires Valid() && Ahead(buf[..], text, p)
      modifies buf
      ensures p <= e == Find(text, p, DELIMITERS) && found == (e < |text|)
      ensures buf[..p] == old(buf[..p]) && (found ==> Ahead(buf[..], text, e + 1))
      ensures q + |Strip(text[p..e])| == e && StringAt(buf[..], q, Strip(text[p..e]))
    {
      e, found := Scan(p, DELIMITERS, text);
      AheadSlice(buf[..], text, p, e);
      if found {
        AheadAt(buf[..], text, e, e + 1);
        buf[e] := NUL;
        assert buf[..][p..e] == old(buf[..][p..e]) && buf[..][e + 1..|text|] == old(buf[..][e + 1..|text|]);
      }
      q := SkipSpace(p, e, text);
    }

    /** Field i of n: cut, or given up on. */
    method NextField(p: nat, i: nat, n: nat, fields: seq<nat>, ghost text: string, ghost strings: seq<string>,
        ghost all: Split)
      returns (cut: Cut, e: nat, q: nat, ghost f: string)
      requires Valid() && i < n && Progress(buf[..], text, fields, strings, p, i, n, all)
      modifies buf
      ensures match cut
        case Done => Progress(buf[..], text, fields + [q], strings + [f], e + 1, i + 1, n, all)
        case Malformed => all == BadField
        case Full => all == TooMany
    {
      ProgressEnds(buf[..], text, fields, strings, p, i, n, all);
      ghost var before := buf[..];
      var found;
      e, found, q := CutOne(p, text);
      f := Strip(text[p..e]);
      if !found && i < n - 1 {
        cut := Malformed;
      } else if i >= NUM_FIELDS {
        cut := Full;
      } else {
        ProgressStep(before, buf[..], text, fields, strings, p, i, n, all, q);
        cut := Done;
      }
    }

    /** The field loop of parse_packet. */
    method CutFields(s: nat, count: nat, ghost text: string, ghost all: Split) returns (cut: Cut, fields: seq<nat>)
      requires Valid() && Progress(buf[..], text, [], [], s, 0, count, all)
      modifies buf
      ensures Agrees(buf[..], cut, fields, all)
    {
      fields, cut := [], Done;
      ghost var strings: seq<string> := [];
      var i: nat, p: nat := 0, s;
      while i < count
        invariant Progress(buf[..], text, fields, strings, p, i, count, all)
        decreases count - i
      {
        var e, q;
        ghost var f;
        cut, e, q, f := NextField(p, i, count, fields, text, strings, all);
        if cut != Done {
          return;
        }
        fields, strings, i, p := fields + [q], strings + [f], i + 1, e + 1;
      }
      return Done, fields;
    }

    /** What a reading of the buffer says, compared with the parse of the text. */
    ghost predicate Reads(r: Reading, parsed: Parsed)
      reads buf
    {
      match parsed
      case Packet(cmd, sub, count, strings) =>
        r.Read? && r.cmd == cmd && r.sub == sub && r.count == count && StringsAt(buf[..], r.fields, strings)
      case Fault => r == Rejected
      case Overrun => r == NoRoom
    }

    /** The count, cut off at the next comma. */
    method CutCount(u: nat, ghost text: string) returns (e: nat, found: bool, count: nat)
      requires Valid() && Ahead(buf[..], text, u)
      modifies buf
      ensures e == Find(text, u, COMMA) && found == (e < |text|)
      ensures found ==> count == Unsigned(Atoi(text[u..e])) && Ahead(buf[..], text, e + 1)
    {
      e, found := Scan(u, COMMA, text);
      count := 0;
      if found {
        AheadSlice(buf[..], text, u, e);
        AheadAt(buf[..], text, e, e + 1);
        count := Unsigned(Atoi(buf[..][u..e]));
        ghost var before := buf[..];
        buf[e] := NUL;
        AheadKept(before, buf[..], text, e + 1);
      }
    }

    /** The count and the fields. */
    method ParseRest(u: nat, cmd: char, sub: char, ghost text: string) returns (r: Reading)
      requires Valid() && Ahead(buf[..], text, u)
      modifies buf
      ensures Reads(r, ParseCount(text, u, cmd, sub))
    {
      var e, found, count := CutCount(u, text);
      if !found {
        return Rejected;
      }
      r := ParseFields(e + 1, cmd, sub, count, text);
    }

    method ParseFields(p: nat, cmd: char, sub: char, count: nat, ghost text: string) returns (r: Reading)
      requires Valid() && Ahead(buf[..], text, p)
      modifies buf
      ensures Reads(r, Finish(cmd, sub, count, SplitFields(text, p, 0, count)))
    {
      ProgressStarts(buf[..], text, p, count);
      var cut, fields := CutFields(p, count, text, SplitFields(text, p, 0, count));
      r := match cut
        case Done => Read(cmd, sub, count, fields)
        case Malformed => Rejected
        case Full => NoRoom;
    }

    method ParseFromSub(t: nat, cmd: char, ghost text: string) returns (r: Reading)
      requires Valid() && Ahead(buf[..], text, t)
      modifies buf
      ensures Reads(r, ParseSub(text, t, cmd))
    {
      var d, found := Scan(t, COMMA, text);
      if !found {
        return Rejected;
      }
      AheadAt(buf[..], text, t, t);
      AheadAt(buf[..], text, d, d + 1);
      r := ParseRest(d + 1, cmd, buf[t], text);
    }

    method ParseFromCommand(s: nat, ghost text: string) returns (r: Reading)
      requires Valid() && Ahead(buf[..], text, s)
      modifies buf
      ensures Reads(r, ParseCommand(text, s))
    {
      var c, found := Scan(s, COMMA, text);
      if !found {
        return Rejected;
      }
      AheadAt(buf[..], text, s, s);
      AheadAt(buf[..], text, c, c + 1);
      r := ParseFromSub(c + 1, buf[s], text);
    }

    /** parse_packet on the first len characters. */
    method ParsePacket() returns (r: Reading)
      requires Valid()
      modifies buf
      ensures Valid() && Reads(r, Parse(CString(old(buf[..len]), 0)))
    {
      ghost var text := CString(buf[..len], 0);
      buf[len] := NUL;
      TextAhead(old(buf[..]), buf[..], len);
      var h, found := Scan(0, {'#'}, text);
      if !found {
        return Rejected;
      }
      AheadAt(buf[..], text, h, h + 1);
      r := ParseFromCommand(h + 1, text);
    }

    /** A reading gives back command, sub-command, count and every field, as C strings in the buffer. */
    ghost predicate Recovers(r: Reading, cmd: char, sub: char, fields: seq<string>)
      reads buf
    {
      && r.Read? && r.cmd == cmd && r.sub == sub && r.count == |fields| == |r.fields|
      && forall k | 0 <= k < |fields| :: r.fields[k] <= buf.Length && CString(buf[..], r.fields[k]) == fields[k]
    }

    /** A reading recovers a packet exactly when the parse that it reads is that packet. */
    lemma RecoversExactly(r: Reading, parsed: Parsed, cmd: char, sub: char, fields: seq<string>)
      requires Reads(r, parsed)
      ensures Recovers(r, cmd, sub, fields) <==> parsed == Packet(cmd, sub, |fields|, fields)
    {
      if parsed.Packet? {
        forall k | 0 <= k < |r.fields|
          ensures r.fields[k] <= buf.Length && CString(buf[..], r.fields[k]) == parsed.fields[k]
        {
          StringAtIs(buf[..], r.fields[k], parsed.fields[k]);
        }
        if Recovers(r, cmd, sub, fields) {
          assert forall k | 0 <= k < |fields| :: parsed.fields[k] == fields[k];
          assert parsed.fields == fields;
        }
      }
    }

    /** wu_write, then parse_packet on the same buffer. */
    method RoundTrip(cmd: char, sub: char, fields: seq<string>) returns (ok: bool, r: Reading)
      requires Valid() && 1 <= |fields| <= NUM_FIELDS && forall f | f in fields :: Without(f, {NUL})
      modifies this`len, buf
      ensures ok <==> forall k: nat | k < |fields| :: FitsAt(cmd, sub, fields, k)
      ensures ok ==> (Recovers(r, cmd, sub, fields) <==> Plain(cmd) && Plain(sub) && AllClean(fields))
    {
      ok := Write(cmd, sub, fields);
      r := Rejected;
      if ok {
        RoundTripExactly(cmd, sub, fields);
        r := ParsePacket();
        RecoversExactly(r, Parse(CString(Written(cmd, sub, fields), 0)), cmd, sub, fields);
      }
    }
  }

  /** With a NUL behind the written part, the text up to the first NUL is all that a scan can see. */
  lemma TextAhead(b: string, c: string, len: nat)
    requires len < |b| == |c| && c == b[len := NUL]
    ensures Ahead(c, CString(b[..len], 0), 0)
  {
    var t := b[..len];
    var k := Find(t, 0, {NUL});
    FindFinds(t, 0, {NUL});
    assert c[0..k] == t[0..k];
    assert k < len ==> c[k] == t[k];
  }
}
