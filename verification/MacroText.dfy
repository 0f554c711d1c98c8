/**
 How the text of a reference is taken apart: which clauses are the number of an argument, where a
 clause is split, and which characters can be part of a token.
 */
module MacroText {
  import opened Expr
  import opened Macro

  // ---------------------------------------------------------------- numbers of arguments

  const DIGITS := "0123456789"

  /** The decimal spelling of a number. */
  function Spelling(k: nat): (s: string)
    ensures s != ""
  {
    (if k < 10 then "" else Spelling(k / 10)) + [DIGITS[k % 10]]
  }

  function Naughts(n: nat): (s: string)
    ensures |s| == n && forall i :: 0 <= i < n ==> s[i] == '0'
  {
    seq(n, _ => '0')
  }

  /** d is the decimal spelling of k, behind any number of naughts. */
  ghost predicate Spells(d: string, k: nat) {
    exists n: nat :: d == Naughts(n) + Spelling(k)
  }

  lemma {:induction false} DigitsJoin(s: string, c: char)
    ensures Digits(s + [c]) <==> Digits(s) && '0' <= c <= '9'
  {
    if s != "" {
      assert (s + [c])[1..] == s[1..] + [c];
      DigitsJoin(s[1..], c);
    }
  }

  lemma DigitIs(k: nat)
    requires k < 10
    ensures DIGITS[k] as nat == '0' as nat + k
  {
  }

  lemma DecimalJoin(s: string, c: char)
    requires Digits(s + [c])
    ensures Digits(s) && Decimal(s + [c]) == Decimal(s) * 10 + (c as nat - '0' as nat)
  {
    DigitsJoin(s, c);
    assert (s + [c])[..|s|] == s;
  }

  lemma SpellingStep(k: nat, v: nat)
    requires v < 10
    ensures Spelling(k * 10 + v) == (if k == 0 then "" else Spelling(k)) + [DIGITS[v]]
  {
    assert (k * 10 + v) / 10 == k && (k * 10 + v) % 10 == v;
  }

  lemma {:induction false} DecimalOfSpelling(n: nat, k: nat)
    ensures Digits(Naughts(n) + Spelling(k)) && Decimal(Naughts(n) + Spelling(k)) == k
  {
    hide Spelling, Digits, Decimal;
    var c := DIGITS[k % 10];
    var s := Naughts(n) + if k < 10 then "" else Spelling(k / 10);
    DigitIs(k % 10);
    SpellingStep(k / 10, k % 10);
    if k < 10 {
      DecimalOfNaughts(n);
      assert s == Naughts(n);
    } else {
      DecimalOfSpelling(n, k / 10);
    }
    assert Naughts(n) + Spelling(k) == s + [c];
    DigitsJoin(s, c);
    DecimalJoin(s, c);
  }

  lemma {:induction false} DecimalOfNaughts(n: nat)
    ensures Digits(Naughts(n)) && Decimal(Naughts(n)) == 0
  {
    if n > 0 {
      DecimalOfNaughts(n - 1);
      assert Naughts(n) == Naughts(n - 1) + ['0'];
      DigitsJoin(Naughts(n - 1), '0');
      DecimalJoin(Naughts(n - 1), '0');
    }
  }

  /** Nothing else is read as a number. */
  lemma {:induction false} SpellingOfDecimal(d: string)
    requires d != "" && Digits(d)
    ensures Spells(d, Decimal(d))
    decreases |d|
  {
    hide Spelling, Digits, Decimal;
    var s, c := d[..|d| - 1], d[|d| - 1];
    assert d == s + [c];
    DigitsJoin(s, c);
    DecimalJoin(s, c);
    var (k, v) := (Decimal(s), c as nat - '0' as nat);
    DigitIs(v);
    SpellingStep(k, v);
    if s == "" {
      NoDecimal();
      assert d == Naughts(0) + Spelling(k * 10 + v);
    } else {
      SpellingOfDecimal(s);
      var n: nat :| s == Naughts(n) + Spelling(k);
      if k == 0 {
        SpellingStep(0, 0);
        assert d == Naughts(n + 1) + Spelling(v);
      } else {
        assert d == Naughts(n) + Spelling(k * 10 + v);
      }
    }
  }

  lemma NoDecimal()
    ensures Digits("") && Decimal("") == 0
  {
  }

  lemma NumberExactly(d: string, k: nat)
    ensures d != "" && Digits(d) && Decimal(d) == k <==> Spells(d, k)
  {
    hide Spelling, Digits, Decimal;
    if d != "" && Digits(d) {
      SpellingOfDecimal(d);
    }
    if Spells(d, k) {
      var n: nat :| d == Naughts(n) + Spelling(k);
      DecimalOfSpelling(n, k);
    }
  }

  const SPACES := {' ', '\t', '\n', '\U{0B}', '\U{0C}', '\r'}

  /** The clause is the number k: behind white space its spelling, possibly with a plus sign, or
      with a minus sign that of the number that is k below 2^64. */
  ghost predicate Names(clause: string, k: nat) {
    exists i :: 0 <= i <= |clause| && (forall j :: 0 <= j < i ==> clause[j] in SPACES) && NamesUnspaced(clause[i..], k)
  }

  ghost predicate NamesUnspaced(t: string, k: nat) {
    || Spells(t, k)
    || (t != "" && t[0] == '+' && Spells(t[1..], k))
    || (t != "" && t[0] == '-' && k < 0x1_0000_0000_0000_0000 && Spells(t[1..], 0x1_0000_0000_0000_0000 - k))
  }

  lemma {:induction false} SkipSpaceExactly(s: string) returns (i: nat)
    ensures i <= |s| && SkipSpace(s) == s[i..]
    ensures forall j :: 0 <= j < i ==> s[j] in SPACES
    ensures i < |s| ==> s[i] !in SPACES
  {
    if s != "" && (s[0] == ' ' || '\t' <= s[0] <= '\r') {
      i := SkipSpaceExactly(s[1..]);
      i := i + 1;
      assert s[i..] == s[1..][i - 1..];
      assert forall j :: 1 <= j < |s| ==> s[j] == s[1..][j - 1];
    } else {
      i := 0;
    }
  }

  /** Which clauses are read as the number k of an argument. */
  lemma ArgNumberExactly(clause: string, k: nat)
    requires 0 < k < ULONG_MAX
    ensures ArgNumber(clause) == k <==> Names(clause, k)
  {
    hide NamesUnspaced, ArgNumber, SkipSpace;
    var i := SkipSpaceExactly(clause);
    UnspacedExactly(clause[i..], k);
    ArgNumberSkips(clause, i);
    if Names(clause, k) {
      var j :| 0 <= j <= |clause| && (forall m :: 0 <= m < j ==> clause[m] in SPACES) && NamesUnspaced(clause[j..], k);
      NamesNoSpace(clause[j..], k);
      assert clause[j] == clause[j..][0];
      assert i == j;
    }
  }

  lemma ArgNumberSkips(clause: string, i: nat)
    requires i <= |clause| && SkipSpace(clause) == clause[i..] && (i < |clause| ==> clause[i] !in SPACES)
    ensures ArgNumber(clause) == ArgNumber(clause[i..])
  {
    hide ArgNumber, SkipSpace;
    NothingSkipped(clause[i..]);
    SameArgNumber(clause, clause[i..]);
  }

  lemma SameArgNumber(s: string, t: string)
    requires SkipSpace(s) == SkipSpace(t)
    ensures ArgNumber(s) == ArgNumber(t)
  {
    hide SkipSpace, Digits, Decimal;
  }

  lemma NothingSkipped(t: string)
    requires t != "" ==> t[0] !in SPACES
    ensures SkipSpace(t) == t
  {
  }

  lemma NamesNoSpace(t: string, k: nat)
    requires NamesUnspaced(t, k)
    ensures t != "" && t[0] !in SPACES
  {
    hide Spells, Decimal;
    if Spells(t, k) {
      NumberExactly(t, k);
      assert '0' <= t[0] <= '9';
    } else {
      assert t[0] == '+' || t[0] == '-';
    }
  }

  lemma UnspacedExactly(t: string, k: nat)
    requires 0 < k < ULONG_MAX && (t != "" ==> t[0] !in SPACES)
    ensures ArgNumber(t) == k <==> NamesUnspaced(t, k)
  {
    hide Spells, Decimal;
    assert SkipSpace(t) == t;
    NumberExactly(t, k);
    if t != "" {
      NumberExactly(t[1..], k);
      NumberExactly(t[1..], ULONG_MAX + 1 - k);
    }
  }

  // ---------------------------------------------------------------- where a clause is split

  /** Where part i begins in the text that the parts make up, joined by commas. */
  ghost function Offset(parts: seq<string>, i: nat): nat
    requires i < |parts|
  {
    if i == 0 then 0 else |parts[0]| + 1 + Offset(parts[1..], i - 1)
  }

  lemma DepthBehind(s: string, j: nat)
    requires 0 < j <= |s|
    ensures Depth(s[..j]) == (if s[0] == '(' then 1 else if s[0] == ')' then -1 else 0) + Depth(s[1..][..j - 1])
  {
    assert s[..j][1..] == s[1..][..j - 1];
  }

  /** There is a comma between two parts at j. */
  ghost predicate CutAt(parts: seq<string>, j: nat) {
    exists i :: 0 < i < |parts| && Offset(parts, i) == j + 1
  }

  /** A clause is split exactly at the commas before which as many parentheses are closed as are
      opened. */
  lemma {:induction false} SplitExactly(s: string, nest: int, j: nat)
    requires j < |s|
    ensures s[j] == ',' && nest + Depth(s[..j]) == 0 <==> CutAt(Split(s, nest), j)
    decreases |s|
  {
    hide Split, CutAt;
    var here := if s[0] == '(' then 1 else if s[0] == ')' then -1 else 0;
    SplitStep(s, nest);
    CutStep(Split(s, nest), Split(s[1..], nest + here), s[0], s[0] == ',' && nest == 0, j);
    if j > 0 {
      SplitExactly(s[1..], nest + here, j - 1);
      DepthBehind(s, j);
    } else {
      assert s[..0] == "";
    }
  }

  lemma CutStep(parts: seq<string>, r: seq<string>, c: char, cut: bool, j: nat)
    requires r != [] && parts == if cut then [""] + r else [[c] + r[0]] + r[1..]
    ensures CutAt(parts, j) <==> if j == 0 then cut else CutAt(r, j - 1)
  {
    forall i | 0 < i < |parts| ensures Offset(parts, i) == 1 + if cut then Offset(r, i - 1) else Offset(r, i) {
      OffsetStep(parts, r, c, i, cut);
    }
    if cut && j == 0 {
      assert Offset(parts, 1) == 1;
    }
    if j > 0 && CutAt(r, j - 1) {
      var i :| 0 < i < |r| && Offset(r, i) == j;
      assert Offset(parts, if cut then i + 1 else i) == j + 1;
    }
    if CutAt(parts, j) {
      var i :| 0 < i < |parts| && Offset(parts, i) == j + 1;
      if j > 0 {
        assert Offset(r, if cut then i - 1 else i) == j;
      }
    }
  }

  lemma SplitStep(s: string, nest: int)
    requires s != ""
    ensures var here := if s[0] == '(' then 1 else if s[0] == ')' then -1 else 0;
            var r := Split(s[1..], nest + here);
            Split(s, nest) == if s[0] == ',' && nest == 0 then [""] + r else [[s[0]] + r[0]] + r[1..]
  {
  }

  lemma OffsetStep(parts: seq<string>, r: seq<string>, c: char, i: nat, cut: bool)
    requires r != [] && 0 < i < |parts| && parts == if cut then [""] + r else [[c] + r[0]] + r[1..]
    ensures Offset(parts, i) == 1 + if cut then Offset(r, i - 1) else Offset(r, i)
  {
    assert parts[1..] == if cut then r else r[1..];
  }

  /** All its parentheses match, and its commas are inside them. */
  predicate Closed(t: string) {
    Depth(t) == 0 && forall j :: 0 <= j < |t| && (t[j] == ',' || t[j] == ')') ==> Depth(t[..j]) > 0
  }

  lemma DepthStep(t: string)
    ensures Depth(t) == if t == "" then 0
                        else (if t[0] == '(' then 1 else if t[0] == ')' then -1 else 0) + Depth(t[1..])
  {
  }

  lemma {:induction false} SplitBehind(t: string, u: string, nest: int)
    requires forall j :: 0 <= j < |t| && t[j] == ',' ==> nest + Depth(t[..j]) != 0
    ensures var r := Split(u, nest + Depth(t)); Split(t + u, nest) == [t + r[0]] + r[1..]
    decreases |t|
  {
    hide Split, Depth;
    DepthStep(t);
    var r := Split(u, nest + Depth(t));
    if t == "" {
      assert t + u == u && "" + r[0] == r[0];
    } else {
      var here := if t[0] == '(' then 1 else if t[0] == ')' then -1 else 0;
      assert (t + u)[0] == t[0] && (t + u)[1..] == t[1..] + u;
      UncutBehind(t, nest);
      SplitBehind(t[1..], u, nest + here);
      SplitStep(t + u, nest);
      InFront(t, r, Split(t[1..] + u, nest + here));
    }
  }

  lemma UncutBehind(t: string, nest: int)
    requires t != "" && forall j :: 0 <= j < |t| && t[j] == ',' ==> nest + Depth(t[..j]) != 0
    ensures t[0] == ',' ==> nest != 0
    ensures var here := if t[0] == '(' then 1 else if t[0] == ')' then -1 else 0;
            forall j :: 0 <= j < |t[1..]| && t[1..][j] == ',' ==> nest + here + Depth(t[1..][..j]) != 0
  {
    assert t[..0] == "";
    forall j | 0 <= j < |t[1..]| && t[1..][j] == ','
      ensures nest + (if t[0] == '(' then 1 else if t[0] == ')' then -1 else 0) + Depth(t[1..][..j]) != 0
    {
      DepthBehind(t, j + 1);
    }
  }

  lemma InFront(t: string, r: seq<string>, q: seq<string>)
    requires t != "" && r != [] && q == [t[1..] + r[0]] + r[1..]
    ensures [[t[0]] + q[0]] + q[1..] == [t + r[0]] + r[1..]
  {
    assert [t[0]] + (t[1..] + r[0]) == t + r[0];
  }

  /** Closed parts that are joined by commas come out again: the inverse of SplitJoins. */
  lemma {:induction false} SplitOfJoin(parts: seq<string>)
    requires parts != [] && forall t :: t in parts ==> Closed(t)
    ensures Split(Join(parts), 0) == parts
  {
    hide Split, Join, Depth;
    assert parts[0] in parts && Closed(parts[0]);
    if |parts| == 1 {
      JoinOne(parts[0]);
      assert parts == [parts[0]] && parts[0] + "" == parts[0];
      SplitBehind(parts[0], "", 0);
      NothingToSplit();
    } else {
      JoinUnfold(parts);
      SplitOfJoin(parts[1..]);
      SplitAtComma(parts[0], Join(parts[1..]));
      assert parts == [parts[0]] + parts[1..];
    }
  }

  lemma SplitAtComma(t: string, u: string)
    requires Closed(t)
    ensures Split(t + "," + u, 0) == [t] + Split(u, 0)
  {
    hide Split, Depth;
    assert t + "," + u == t + ("," + u) && ("," + u)[1..] == u;
    SplitBehind(t, "," + u, 0);
    SplitStep("," + u, 0);
    assert t + "" == t;
  }

  lemma NothingToSplit()
    ensures Split("", 0) == [""]
  {
  }

  lemma {:induction false} CloseBehind(t: string, u: string, nest: nat)
    requires forall j :: 0 <= j < |t| && t[j] == ')' ==> nest + Depth(t[..j]) > 0
    requires nest + Depth(t) >= 0
    ensures var r := Close(u, nest + Depth(t));
            Close(t + u, nest) == if r.None? then None else Some(|t| + r.value)
    decreases |t|
  {
    if t == "" {
      assert t + u == u;
    } else {
      var here := if t[0] == '(' then 1 else if t[0] == ')' then -1 else 0;
      assert (t + u)[0] == t[0] && (t + u)[1..] == t[1..] + u;
      assert t[..0] == "";
      forall j | 0 <= j < |t[1..]| && t[1..][j] == ')' ensures nest + here + Depth(t[1..][..j]) > 0 {
        DepthBehind(t, j + 1);
      }
      CloseBehind(t[1..], u, nest + here);
    }
  }

  /** The parenthesis behind closed parts is the one that is found. */
  lemma {:induction false} CloseOfJoin(parts: seq<string>, post: string)
    requires parts != [] && forall t :: t in parts ==> Closed(t)
    ensures Close(Join(parts) + (")" + post), 0) == Some(|Join(parts)|)
  {
    hide Close, Join;
    var t := parts[0];
    assert t in parts && Closed(t);
    if |parts| == 1 {
      JoinOne(t);
      assert parts == [t];
      CloseBehind(t, ")" + post, 0);
      CloseHere(post);
    } else {
      JoinUnfold(parts);
      CloseOfJoin(parts[1..], post);
      var u := Join(parts[1..]) + (")" + post);
      CloseBehind(t + ",", u, 0) by {
        DepthOfJoined(t);
      }
      DepthOfJoined(t);
      assert Join(parts) + (")" + post) == t + "," + u;
    }
  }

  lemma CloseHere(post: string)
    ensures Close(")" + post, 0) == Some(0)
  {
  }

  lemma DepthOfJoined(t: string)
    requires Closed(t)
    ensures Depth(t + ",") == 0
    ensures forall j :: 0 <= j < |t + ","| && (t + ",")[j] == ')' ==> Depth((t + ",")[..j]) > 0
  {
    DepthJoin(t, ",");
    assert Depth(",") == 0;
    forall j | 0 <= j < |t + ","| && (t + ",")[j] == ')' ensures Depth((t + ",")[..j]) > 0 {
      assert (t + ",")[..j] == t[..j] && t[j] == ')';
    }
  }

  lemma {:induction false} DepthJoin(s: string, t: string)
    ensures Depth(s + t) == Depth(s) + Depth(t)
  {
    if s == "" {
      assert s + t == t;
    } else {
      assert (s + t)[0] == s[0] && (s + t)[1..] == s[1..] + t;
      DepthJoin(s[1..], t);
    }
  }

  // ---------------------------------------------------------------- tokens

  const LOWER := "abcdefghijklmnopqrstuvwxyz"
  const UPPER := "ABCDEFGHIJKLMNOPQRSTUVWXYZ"
  const MARKS := "_-./"

  lemma LetterIs(k: nat)
    requires k < 26
    ensures LOWER[k] as nat == 'a' as nat + k && UPPER[k] as nat == 'A' as nat + k
  {
  }

  /** A token is made of letters, digits and four marks. */
  lemma TokenCharExactly(c: char)
    ensures TokenChar(c) <==> c in LOWER || c in UPPER || c in DIGITS || c in MARKS
  {
    forall k | 0 <= k < 26 ensures LOWER[k] as nat == 'a' as nat + k && UPPER[k] as nat == 'A' as nat + k {
      LetterIs(k);
    }
    forall k | 0 <= k < 10 ensures DIGITS[k] as nat == '0' as nat + k {
      DigitIs(k);
    }
    if 'a' <= c <= 'z' {
      assert LOWER[c as nat - 'a' as nat] == c;
    } else if 'A' <= c <= 'Z' {
      assert UPPER[c as nat - 'A' as nat] == c;
    } else if '0' <= c <= '9' {
      assert DIGITS[c as nat - '0' as nat] == c;
    } else if TokenChar(c) {
      assert MARKS[0] == '_' && MARKS[1] == '-' && MARKS[2] == '.' && MARKS[3] == '/';
    }
  }
}
