/**
 * The parts of Rust's string library that the tool's parsers rely on, over
 * `string`: `find`/`contains` on a pattern, `split` on a pattern, `lines`,
 * `parse::<usize>` and `to_string` on numbers. Strings are sequences of
 * characters; the byte-level UTF-8 handling of `String::from_utf8_lossy` is
 * not modelled.
 */
module Text {
  import opened Wrappers

  /** `pat` occurs in `s` starting at index `i`. */
  predicate OccursAt(s: string, pat: string, i: nat) {
    i + |pat| <= |s| && s[i..i + |pat|] == pat
  }

  lemma OccursShift(s: string, pat: string)
    requires |s| > 0
    ensures forall j: nat :: j >= 1 ==> (OccursAt(s, pat, j) <==> OccursAt(s[1..], pat, j - 1))
  {
    forall j: nat | j >= 1
      ensures OccursAt(s, pat, j) <==> OccursAt(s[1..], pat, j - 1)
    {
      if j + |pat| <= |s| {
        assert s[1..][j - 1..j - 1 + |pat|] == s[j..j + |pat|];
      }
    }
  }

  /** `str::find`: the index of the first occurrence of a non-empty pattern. */
  function Find(s: string, pat: string): (r: Option<nat>)
    requires |pat| > 0
    ensures r.Some? ==> OccursAt(s, pat, r.value)
    ensures r.Some? ==> forall j: nat :: j < r.value ==> !OccursAt(s, pat, j)
    ensures r.None? ==> forall j: nat :: !OccursAt(s, pat, j)
    decreases |s|
  {
    if |s| < |pat| then None
    else if s[..|pat|] == pat then Some(0)
    else
      OccursShift(s, pat);
      assert !OccursAt(s, pat, 0) by {
        assert s[0..|pat|] == s[..|pat|];
      }
      match Find(s[1..], pat)
      case None => None
      case Some(i) => Some(i + 1)
  }

  /** `str::contains`. */
  predicate Contains(s: string, pat: string)
    requires |pat| > 0
  {
    Find(s, pat).Some?
  }

  /** Find returns the first occurrence: any occurrence with none before it is the answer. */
  lemma FindIsFirst(s: string, pat: string, k: nat)
    requires |pat| > 0
    requires OccursAt(s, pat, k)
    requires forall j: nat :: j < k ==> !OccursAt(s, pat, j)
    ensures Find(s, pat) == Some(k)
  {
  }

  /** A one-character pattern occurs exactly where that character stands. */
  lemma OccursChar(s: string, c: char, j: nat)
    ensures OccursAt(s, [c], j) <==> j < |s| && s[j] == c
  {
    if j < |s| {
      assert s[j..j + 1] == [s[j]];
    }
  }

  lemma ContainsChar(s: string, c: char)
    ensures Contains(s, [c]) <==> c in s
  {
    if c in s {
      var j :| 0 <= j < |s| && s[j] == c;
      OccursChar(s, c, j);
    }
    if Contains(s, [c]) {
      var j := Find(s, [c]).value;
      OccursChar(s, c, j);
    }
  }

  /** A pattern cannot occur in a string that lacks one of its characters. */
  lemma AbsentCharNotContained(s: string, pat: string, k: nat)
    requires |pat| > 0 && k < |pat| && pat[k] !in s
    ensures !Contains(s, pat)
  {
  }

  /** `str::split` on a non-empty pattern: the pieces between occurrences, at least one. */
  function Split(s: string, sep: string): (parts: seq<string>)
    requires |sep| > 0
    ensures |parts| > 0
    decreases |s|
  {
    match Find(s, sep)
    case None => [s]
    case Some(i) => [s[..i]] + Split(s[i + |sep|..], sep)
  }

  /** The inverse of Split: the pieces glued back with the separator. */
  function Join(parts: seq<string>, sep: string): string
    requires |parts| > 0
  {
    if |parts| == 1 then parts[0] else parts[0] + sep + Join(parts[1..], sep)
  }

  /** Splitting loses nothing: gluing the pieces back gives the original string. */
  lemma {:induction false} SplitThenJoin(s: string, sep: string)
    requires |sep| > 0
    ensures Join(Split(s, sep), sep) == s
    decreases |s|
  {
    match Find(s, sep)
    case None =>
    case Some(i) =>
      var rest := s[i + |sep|..];
      SplitThenJoin(rest, sep);
      assert Split(s, sep) == [s[..i]] + Split(rest, sep);
      assert s == s[..i] + s[i..i + |sep|] + rest;
  }

  /** No piece of a split contains the separator. */
  lemma {:induction false} SplitPiecesLackSeparator(s: string, sep: string)
    requires |sep| > 0
    ensures forall p | p in Split(s, sep) :: !Contains(p, sep)
    decreases |s|
  {
    match Find(s, sep)
    case None =>
    case Some(i) =>
      var rest := s[i + |sep|..];
      SplitPiecesLackSeparator(rest, sep);
      assert Split(s, sep) == [s[..i]] + Split(rest, sep);
      if Contains(s[..i], sep) {
        var j := Find(s[..i], sep).value;
        assert s[..i][j..j + |sep|] == s[j..j + |sep|];
        assert OccursAt(s, sep, j);
        assert false;
      }
  }

  /** The first piece of a split is a prefix of the string. */
  lemma SplitHeadIsPrefix(s: string, sep: string)
    requires |sep| > 0
    ensures Split(s, sep)[0] <= s
  {
  }

  /** Joining separator-free pieces and splitting again gives back the pieces. */
  lemma {:induction false} JoinThenSplit(parts: seq<string>, c: char)
    requires |parts| > 0
    requires forall p | p in parts :: c !in p
    ensures Split(Join(parts, [c]), [c]) == parts
    decreases |parts|
  {
    var s := Join(parts, [c]);
    if |parts| == 1 {
      assert parts[0] in parts;
      if Find(s, [c]).Some? {
        var j := Find(s, [c]).value;
        OccursChar(s, c, j);
        assert false;
      }
    } else {
      var p0 := parts[0];
      assert p0 in parts;
      var rest := Join(parts[1..], [c]);
      assert s == p0 + [c] + rest;
      OccursChar(s, c, |p0|);
      forall j: nat | j < |p0|
        ensures !OccursAt(s, [c], j)
      {
        OccursChar(s, c, j);
        assert s[j] == p0[j] && p0[j] in p0;
      }
      FindIsFirst(s, [c], |p0|);
      assert s[..|p0|] == p0;
      assert s[|p0| + 1..] == rest;
      assert forall p | p in parts[1..] :: p in parts;
      JoinThenSplit(parts[1..], c);
    }
  }

  /** Number of occurrences of a character. */
  function Count(s: string, c: char): nat
  {
    if s == [] then 0 else (if s[0] == c then 1 else 0) + Count(s[1..], c)
  }

  lemma {:induction false} CountAppend(a: string, b: string, c: char)
    ensures Count(a + b, c) == Count(a, c) + Count(b, c)
    decreases |a|
  {
    if a != [] {
      assert (a + b)[0] == a[0];
      assert (a + b)[1..] == a[1..] + b;
      CountAppend(a[1..], b, c);
    } else {
      assert a + b == b;
    }
  }

  lemma {:induction false} CountAbsent(s: string, c: char)
    requires c !in s
    ensures Count(s, c) == 0
    decreases |s|
  {
    if s != [] {
      assert forall x | x in s[1..] :: x in s;
      CountAbsent(s[1..], c);
    }
  }

  /** Splitting on a character yields one more piece than it has occurrences. */
  lemma {:induction false} SplitCount(s: string, c: char)
    ensures |Split(s, [c])| == Count(s, c) + 1
    decreases |s|
  {
    match Find(s, [c])
    case None =>
      if c in s {
        ContainsChar(s, c);
      }
      CountAbsent(s, c);
    case Some(i) =>
      var rest := s[i + 1..];
      SplitCount(rest, c);
      assert Split(s, [c]) == [s[..i]] + Split(rest, [c]);
      OccursChar(s, c, i);
      assert s == s[..i] + ([c] + rest);
      assert [c][1..] == [];
      if c in s[..i] {
        var j :| 0 <= j < i && s[..i][j] == c;
        OccursChar(s, c, j);
        assert false;
      }
      CountAbsent(s[..i], c);
      CountAppend(s[..i], [c] + rest, c);
      CountAppend([c], rest, c);
  }

  /** Drops one carriage return that ends a line. */
  function StripCR(line: string): string
  {
    if |line| > 0 && line[|line| - 1] == '\r' then line[..|line| - 1] else line
  }

  /**
   * `str::lines`: the pieces between newlines, a final empty piece (a
   * trailing newline) dropped, each line losing one trailing carriage return.
   */
  function Lines(s: string): seq<string>
  {
    var parts := Split(s, "\n");
    var kept := if parts[|parts| - 1] == "" then parts[..|parts| - 1] else parts;
    seq(|kept|, i requires 0 <= i < |kept| => StripCR(kept[i]))
  }

  /** Every line followed by a newline, as a server writes a multi-line reply. */
  function Terminated(ls: seq<string>): string
  {
    if ls == [] then "" else ls[0] + "\n" + Terminated(ls[1..])
  }

  lemma {:induction false} TerminatedIsJoin(ls: seq<string>)
    ensures Terminated(ls) == Join(ls + [""], "\n")
    decreases |ls|
  {
    if ls != [] {
      assert (ls + [""])[1..] == ls[1..] + [""];
      TerminatedIsJoin(ls[1..]);
    }
  }

  /** Lines reads back exactly the lines of a newline-terminated text. */
  lemma LinesOfTerminated(ls: seq<string>)
    requires forall l | l in ls :: '\n' !in l
    requires forall l | l in ls :: |l| == 0 || l[|l| - 1] != '\r'
    ensures Lines(Terminated(ls)) == ls
  {
    var parts := ls + [""];
    TerminatedIsJoin(ls);
    assert forall l | l in parts :: '\n' !in l by {
      forall l | l in parts ensures '\n' !in l {
        if l != "" { assert l in ls; }
      }
    }
    JoinThenSplit(parts, '\n');
    assert Split(Terminated(ls), "\n") == parts;
    assert parts[..|ls|] == ls;
    forall i | 0 <= i < |ls|
      ensures StripCR(ls[i]) == ls[i]
    {
      assert ls[i] in ls;
    }
  }

  predicate IsDigit(ch: char) { '0' <= ch <= '9' }

  predicate AllDigits(s: string) { forall i | 0 <= i < |s| :: IsDigit(s[i]) }

  /** The value of a string of decimal digits, most significant first. */
  function DigitsValue(s: string): nat
    requires AllDigits(s)
    decreases |s|
  {
    if s == [] then 0 else DigitsValue(s[..|s| - 1]) * 10 + (s[|s| - 1] as int - '0' as int)
  }

  /** `str::parse::<usize>`: an optional `+`, then one or more decimal digits. */
  function ParseNat(s: string): Option<nat>
  {
    var digits := if |s| > 0 && s[0] == '+' then s[1..] else s;
    if |digits| > 0 && AllDigits(digits) then Some(DigitsValue(digits)) else None
  }

  function DigitChar(d: nat): (ch: char)
    requires d < 10
    ensures IsDigit(ch)
  {
    ('0' as int + d) as char
  }

  /** `usize::to_string`: the decimal numeral of a number. */
  function Decimal(n: nat): (s: string)
    ensures |s| > 0 && AllDigits(s)
    decreases n
  {
    if n < 10 then [DigitChar(n)] else Decimal(n / 10) + [DigitChar(n % 10)]
  }

  /** Reading back a printed number gives the number. */
  lemma {:induction false} DecimalRoundTrip(n: nat)
    ensures ParseNat(Decimal(n)) == Some(n)
    ensures DigitsValue(Decimal(n)) == n
    decreases n
  {
    var s := Decimal(n);
    assert IsDigit(s[0]);
    if n >= 10 {
      DecimalRoundTrip(n / 10);
      assert s[..|s| - 1] == Decimal(n / 10);
      assert DigitsValue(s) == (n / 10) * 10 + n % 10;
    } else {
      assert s[..|s| - 1] == [];
      assert s[0] as int == '0' as int + n;
      assert DigitsValue(s) == DigitsValue([]) * 10 + (s[0] as int - '0' as int);
    }
  }

  /** A string that starts with neither a digit nor `+` is not a number. */
  lemma NotANumber(s: string)
    requires |s| == 0 || (s[0] != '+' && !IsDigit(s[0]))
    ensures ParseNat(s).None?
  {
  }

  // ---------------------------------------------------------------------
  // `ip:port` addresses

  /** The `ip:port` form in which both node types print an address. */
  function HostPort(ip: string, port: string): string
  {
    ip + ":" + port
  }

  /**
   * An address splits on `:` into exactly two pieces iff it holds exactly
   * one `:`; the two pieces are then colon-free and rejoin to the address.
   */
  lemma AddrPieces(s: string)
    ensures |Split(s, ":")| == 2 <==> Count(s, ':') == 1
    ensures |Split(s, ":")| == 2 ==>
      HostPort(Split(s, ":")[0], Split(s, ":")[1]) == s && ':' !in Split(s, ":")[0] && ':' !in Split(s, ":")[1]
  {
    var p := Split(s, ":");
    SplitCount(s, ':');
    if |p| == 2 {
      SplitThenJoin(s, ":");
      assert p[1..] == [p[1]];
      SplitPiecesLackSeparator(s, ":");
      assert p[0] in p && p[1] in p;
      ContainsChar(p[0], ':');
      ContainsChar(p[1], ':');
    }
  }

  /** Colon-free host and port are recovered from their address. */
  lemma HostPortPieces(ip: string, port: string)
    requires ':' !in ip && ':' !in port
    ensures Split(HostPort(ip, port), ":") == [ip, port]
  {
    assert Join([port], ":") == port;
    assert Join([ip, port], ":") == HostPort(ip, port);
    JoinThenSplit([ip, port], ':');
  }
}
