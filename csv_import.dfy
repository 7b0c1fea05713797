/**
 * The roster import, parseCSV (App.tsx:31-116): one student per non-blank
 * line, in one of two dialects.
 *
 *   single-class:  Name, Prio1, Prio2, ..., [X]          (a class id is forced)
 *   bulk:          Name, ClassLetter, Prio1, Prio2, ..., [X]
 *
 * Fields are separated by ',' or ';' and trimmed; a trailing X or x marks
 * the student as morning-only; priority tokens that are not integers are
 * dropped. The text functions below are the JavaScript string operations
 * the handler uses, restricted to what it needs.
 */
module CsvImport {
  import opened Roster
  import opened Seqs

  // ---------------------------------------------------------------------
  // String operations

  /** The characters String.prototype.trim removes: ECMAScript WhiteSpace
      and LineTerminator. */
  predicate IsSpace(c: char)
  {
    || c == '\t' || c == '\n' || c == '\U{000B}' || c == '\U{000C}' || c == '\r' || c == ' '
    || c == '\U{00A0}' || c == '\U{1680}' || ('\U{2000}' <= c <= '\U{200A}')
    || c == '\U{2028}' || c == '\U{2029}' || c == '\U{202F}' || c == '\U{205F}'
    || c == '\U{3000}' || c == '\U{FEFF}'
  }

  /** The longest suffix of s that does not start with white space. */
  function TrimStart(s: string): (r: string)
    ensures |r| <= |s| && r == s[|s| - |r|..]
    ensures forall k | 0 <= k < |s| - |r| :: IsSpace(s[k])
    ensures r == [] || !IsSpace(r[0])
  {
    if s != [] && IsSpace(s[0]) then TrimStart(s[1..]) else s
  }

  /** The longest prefix of s that does not end with white space. */
  function TrimEnd(s: string): (r: string)
    ensures |r| <= |s| && r == s[..|r|]
    ensures forall k | |r| <= k < |s| :: IsSpace(s[k])
    ensures r == [] || !IsSpace(r[|r| - 1])
  {
    if s != [] && IsSpace(s[|s| - 1]) then TrimEnd(s[..|s| - 1]) else s
  }

  /** `s.trim()`. */
  function Trim(s: string): string
  {
    TrimEnd(TrimStart(s))
  }

  /** A trimmed string is a slice of the original with only white space
      cut off on either side, and it neither starts nor ends with white
      space. */
  lemma TrimSlice(s: string) returns (i: nat, j: nat)
    ensures i <= j <= |s| && Trim(s) == s[i..j]
    ensures forall k | 0 <= k < i :: IsSpace(s[k])
    ensures forall k | j <= k < |s| :: IsSpace(s[k])
    ensures Trim(s) == [] || (!IsSpace(Trim(s)[0]) && !IsSpace(Trim(s)[|Trim(s)| - 1]))
  {
    var t := TrimStart(s);
    i := |s| - |t|;
    j := i + |Trim(s)|;
    assert Trim(s) == t[..|Trim(s)|];
    forall k | j <= k < |s| ensures IsSpace(s[k]) {
      assert s[k] == t[k - i];
    }
  }

  /** A string with no white space at its ends is its own trim. */
  lemma TrimTight(s: string)
    requires s != [] && !IsSpace(s[0]) && !IsSpace(s[|s| - 1])
    ensures Trim(s) == s
  {
    assert TrimStart(s) == s;
  }

  /** Exactly the blank lines trim to nothing. */
  lemma TrimBlank(s: string)
    ensures Trim(s) == [] <==> forall k | 0 <= k < |s| :: IsSpace(s[k])
  {
    var i, j := TrimSlice(s);
    if Trim(s) != [] {
      assert !IsSpace(s[i]);
    }
  }

  /** `s.split(c)` for a set of single-character separators: the pieces
      between separators, so one more piece than there are separators. */
  function Split(s: string, seps: set<char>): (r: seq<string>)
    ensures |r| >= 1
  {
    if s == [] then [[]]
    else
      var rest := Split(s[1..], seps);
      if s[0] in seps then [[]] + rest else [[s[0]] + rest[0]] + rest[1..]
  }

  /** No piece contains a separator. */
  lemma {:induction false} SplitClean(s: string, seps: set<char>)
    ensures forall p, k | 0 <= p < |Split(s, seps)| && 0 <= k < |Split(s, seps)[p]| :: Split(s, seps)[p][k] !in seps
  {
    if s != [] {
      SplitClean(s[1..], seps);
      var rest := Split(s[1..], seps);
      if s[0] !in seps {
        forall k | 0 <= k < |[s[0]] + rest[0]| ensures ([s[0]] + rest[0])[k] !in seps {
          if k > 0 {
            assert ([s[0]] + rest[0])[k] == rest[0][k - 1];
          }
        }
      }
    }
  }

  /** Joining the pieces with the separator gives back the text. */
  function Join(pieces: seq<string>, sep: char): string
  {
    if |pieces| <= 1 then (if pieces == [] then [] else pieces[0])
    else pieces[0] + [sep] + Join(pieces[1..], sep)
  }

  /** Splitting on one separator loses nothing. */
  lemma {:induction false} SplitJoin(s: string, sep: char)
    ensures Join(Split(s, {sep}), sep) == s
  {
    if s != [] {
      SplitJoin(s[1..], sep);
      var rest := Split(s[1..], {sep});
      if s[0] == sep {
        assert Split(s, {sep}) == [[]] + rest;
        assert Join([[]] + rest, sep) == [] + [sep] + Join(rest, sep);
        assert s == [s[0]] + s[1..];
      } else {
        assert Split(s, {sep}) == [[s[0]] + rest[0]] + rest[1..];
        var head := [s[0]] + rest[0];
        if |rest| == 1 {
          assert Join([head], sep) == head;
          assert rest[0] == s[1..];
        } else {
          assert ([head] + rest[1..])[1..] == rest[1..];
          assert Join(rest, sep) == rest[0] + [sep] + Join(rest[1..], sep);
        }
        assert s == [s[0]] + s[1..];
      }
    }
  }

  /** A piece without separators followed by a separator is the first
      piece. */
  lemma {:induction false} SplitPiece(a: string, c: char, b: string, seps: set<char>)
    requires c in seps && forall k | 0 <= k < |a| :: a[k] !in seps
    ensures Split(a + [c] + b, seps) == [a] + Split(b, seps)
  {
    if a == [] {
      assert ([] + [c] + b)[1..] == b;
    } else {
      assert (a + [c] + b)[1..] == a[1..] + [c] + b;
      SplitPiece(a[1..], c, b, seps);
      assert [a[0]] + a[1..] == a;
    }
  }

  /** A text without separators is a single piece. */
  lemma {:induction false} SplitWhole(a: string, seps: set<char>)
    requires forall k | 0 <= k < |a| :: a[k] !in seps
    ensures Split(a, seps) == [a]
  {
    if a != [] {
      SplitWhole(a[1..], seps);
      assert [a[0]] + a[1..] == a;
    }
  }

  /** One '\r' at the end of a piece that was followed by '\n'. */
  function DropCarriageReturn(p: string): (r: string)
    ensures r == p || (p == r + ['\r'])
  {
    if p != [] && p[|p| - 1] == '\r' then p[..|p| - 1] else p
  }

  /** `text.split(/\r?\n/)`: the pieces between line breaks, with the '\r'
      of each "\r\n" removed. */
  function Lines(text: string): (r: seq<string>)
    ensures |r| == |Split(text, {'\n'})|
    ensures forall k | 0 <= k < |r| - 1 :: r[k] == DropCarriageReturn(Split(text, {'\n'})[k])
    ensures r[|r| - 1] == Split(text, {'\n'})[|r| - 1]
  {
    var ps := Split(text, {'\n'});
    seq(|ps|, k requires 0 <= k < |ps| => if k < |ps| - 1 then DropCarriageReturn(ps[k]) else ps[k])
  }

  /** Lines written back: line k is followed by "\r\n" where crlf[k] holds
      and by "\n" otherwise, the last line by nothing. */
  function Terminated(ls: seq<string>, crlf: seq<bool>): (r: seq<string>)
    requires |crlf| == |ls| - 1
    ensures |r| == |ls|
    ensures forall k | 0 <= k < |ls| :: r[k] == if k < |crlf| && crlf[k] then ls[k] + ['\r'] else ls[k]
  {
    seq(|ls|, k requires 0 <= k < |ls| => if k < |crlf| && crlf[k] then ls[k] + ['\r'] else ls[k])
  }

  /** Lines written with any mix of "\n" and "\r\n" breaks are read back
      as written, provided no line holds a '\n' and no line before a bare
      "\n" ends in '\r'. */
  lemma LinesOfText(ls: seq<string>, crlf: seq<bool>)
    requires |ls| >= 1 && |crlf| == |ls| - 1
    requires forall p, i | 0 <= p < |ls| && 0 <= i < |ls[p]| :: ls[p][i] != '\n'
    requires forall k | 0 <= k < |crlf| && !crlf[k] :: ls[k] == [] || ls[k][|ls[k]| - 1] != '\r'
    ensures Lines(Join(Terminated(ls, crlf), '\n')) == ls
  {
    var pieces := Terminated(ls, crlf);
    forall p, i | 0 <= p < |pieces| && 0 <= i < |pieces[p]| ensures pieces[p][i] !in {'\n'} {
      if i < |ls[p]| {
        assert pieces[p][i] == ls[p][i];
      }
    }
    SplitOfJoin(pieces, '\n', {'\n'});
    var r := Lines(Join(pieces, '\n'));
    forall k | 0 <= k < |ls| ensures r[k] == ls[k] {
      if k < |crlf| && crlf[k] {
        assert pieces[k][..|pieces[k]| - 1] == ls[k];
      }
    }
  }

  /** Conversely, every text is its lines written back with the breaks it
      had: no line holds a '\n', and a '\r' was dropped exactly where the
      break is "\r\n". */
  lemma TextOfLines(text: string) returns (crlf: seq<bool>)
    ensures |crlf| == |Lines(text)| - 1
    ensures Join(Terminated(Lines(text), crlf), '\n') == text
    ensures forall p, i | 0 <= p < |Lines(text)| && 0 <= i < |Lines(text)[p]| :: Lines(text)[p][i] != '\n'
    ensures forall k | 0 <= k < |crlf| && !crlf[k] :: Lines(text)[k] == [] || Lines(text)[k][|Lines(text)[k]| - 1] != '\r'
  {
    crlf := LinePieces(text);
    SplitJoin(text, '\n');
    LinesClean(text);
  }

  /** Putting back the dropped '\r' gives the pieces between '\n'. */
  lemma LinePieces(text: string) returns (crlf: seq<bool>)
    ensures |crlf| == |Lines(text)| - 1
    ensures Terminated(Lines(text), crlf) == Split(text, {'\n'})
    ensures forall k | 0 <= k < |crlf| && !crlf[k] :: Lines(text)[k] == [] || Lines(text)[k][|Lines(text)[k]| - 1] != '\r'
  {
    var ps := Split(text, {'\n'});
    var ls := Lines(text);
    crlf := seq(|ps| - 1, k requires 0 <= k < |ps| - 1 => ps[k] != [] && ps[k][|ps[k]| - 1] == '\r');
    forall k | 0 <= k < |ps| ensures Terminated(ls, crlf)[k] == ps[k] {
      if k < |crlf| && crlf[k] {
        assert ps[k] == ps[k][..|ps[k]| - 1] + ['\r'];
      }
    }
  }

  /** No line holds a '\n'. */
  lemma LinesClean(text: string)
    ensures forall p, i | 0 <= p < |Lines(text)| && 0 <= i < |Lines(text)[p]| :: Lines(text)[p][i] != '\n'
  {
    var ps := Split(text, {'\n'});
    var ls := Lines(text);
    SplitClean(text, {'\n'});
    forall p, i | 0 <= p < |ls| && 0 <= i < |ls[p]| ensures ls[p][i] != '\n' {
      assert ls[p][i] == ps[p][i];
    }
  }

  /** `line.split(/[,;]/).map(p => p.trim())`. */
  function Fields(line: string): (r: seq<string>)
    ensures |r| == |Split(line, {',', ';'})| && |r| >= 1
    ensures forall k | 0 <= k < |r| :: r[k] == Trim(Split(line, {',', ';'})[k])
  {
    var ps := Split(line, {',', ';'});
    seq(|ps|, k requires 0 <= k < |ps| => Trim(ps[k]))
  }

  /** No white space at either end. */
  predicate Tight(f: string)
  {
    f == [] || (!IsSpace(f[0]) && !IsSpace(f[|f| - 1]))
  }

  /** No field holds a separator or starts or ends with white space. */
  lemma FieldsClean(line: string)
    ensures forall p, i | 0 <= p < |Fields(line)| && 0 <= i < |Fields(line)[p]| ::
      Fields(line)[p][i] != ',' && Fields(line)[p][i] != ';'
    ensures forall p | 0 <= p < |Fields(line)| :: Tight(Fields(line)[p])
  {
    var ps := Split(line, {',', ';'});
    var fs := Fields(line);
    SplitClean(line, {',', ';'});
    forall p | 0 <= p < |fs|
      ensures Tight(fs[p])
      ensures forall i | 0 <= i < |fs[p]| :: fs[p][i] != ',' && fs[p][i] != ';'
    {
      var i, j := TrimSlice(ps[p]);
      forall q | 0 <= q < |fs[p]| ensures fs[p][q] != ',' && fs[p][q] != ';' {
        assert fs[p][q] == ps[p][i + q];
      }
    }
  }

  /** Fields without separators and without white space at their ends,
      joined with ',' or ';', are read back as written. */
  lemma FieldsOfJoin(fs: seq<string>, c: char)
    requires c == ',' || c == ';'
    requires |fs| >= 1
    requires forall p, i | 0 <= p < |fs| && 0 <= i < |fs[p]| :: fs[p][i] != ',' && fs[p][i] != ';'
    requires forall p | 0 <= p < |fs| :: Tight(fs[p])
    ensures Fields(Join(fs, c)) == fs
  {
    SplitOfJoin(fs, c, {',', ';'});
    forall p | 0 <= p < |fs| ensures Trim(fs[p]) == fs[p] {
      if fs[p] != [] {
        TrimTight(fs[p]);
      }
    }
  }

  /** `toUpperCase` on ASCII letters; other characters are kept. */
  function UpperChar(c: char): char
  {
    if 'a' <= c <= 'z' then (c as int - 32) as char else c
  }

  function ToUpper(s: string): (r: string)
    ensures |r| == |s| && forall k | 0 <= k < |s| :: r[k] == UpperChar(s[k])
  {
    seq(|s|, k requires 0 <= k < |s| => UpperChar(s[k]))
  }

  /** The morning-only sentinel of App.tsx:51-52. */
  predicate IsMorningFlag(token: string)
  {
    ToUpper(token) == "X"
  }

  /** The sentinel is exactly "X" or "x". */
  lemma MorningFlagIsX(token: string)
    ensures IsMorningFlag(token) <==> token == "X" || token == "x"
  {
    if IsMorningFlag(token) {
      assert |token| == 1 && UpperChar(token[0]) == 'X';
      assert token == [token[0]];
    }
  }

  // ---------------------------------------------------------------------
  // parseInt(p, 10)

  predicate IsDigit(c: char) { '0' <= c <= '9' }

  /** The longest prefix of s made of decimal digits. */
  function LeadingDigits(s: string): (r: string)
    ensures |r| <= |s| && r == s[..|r|]
    ensures forall k | 0 <= k < |r| :: IsDigit(r[k])
    ensures |r| == |s| || !IsDigit(s[|r|])
  {
    if s != [] && IsDigit(s[0]) then [s[0]] + LeadingDigits(s[1..]) else []
  }

  function DigitValue(c: char): nat
    requires IsDigit(c)
  {
    c as int - '0' as int
  }

  /** The number a string of decimal digits denotes. */
  function DigitsValue(ds: string): nat
    requires forall k | 0 <= k < |ds| :: IsDigit(ds[k])
  {
    if ds == [] then 0 else DigitsValue(ds[..|ds| - 1]) * 10 + DigitValue(ds[|ds| - 1])
  }

  /** `parseInt(t, 10)` on a trimmed token: an optional sign and the
      leading digits; NaN (None) when there is no digit. */
  function ParseInt(t: string): Option<int>
  {
    if t != [] && t[0] == '-' then
      match ParseDigits(t[1..]) case None => None case Some(v) => Some(-v)
    else if t != [] && t[0] == '+' then ParseDigits(t[1..])
    else ParseDigits(t)
  }

  /** The value of the leading digits, if there is one. */
  function ParseDigits(t: string): Option<int>
  {
    var ds := LeadingDigits(t);
    if ds == [] then None else Some(DigitsValue(ds))
  }

  /** The decimal digits of n, most significant first. */
  function Decimal(n: nat): (r: string)
    ensures r != [] && forall k | 0 <= k < |r| :: IsDigit(r[k])
  {
    if n < 10 then ['0' + n as char] else Decimal(n / 10) + ['0' + (n % 10) as char]
  }

  lemma {:induction false} DecimalValue(n: nat)
    ensures DigitsValue(Decimal(n)) == n
  {
    if n >= 10 {
      DecimalValue(n / 10);
      assert Decimal(n)[..|Decimal(n)| - 1] == Decimal(n / 10);
    }
  }

  /** The leading digits of a digit string followed by a non-digit are
      that digit string. */
  lemma {:induction false} LeadingDigitsOf(ds: string, rest: string)
    requires forall k | 0 <= k < |ds| :: IsDigit(ds[k])
    requires rest == [] || !IsDigit(rest[0])
    ensures LeadingDigits(ds + rest) == ds
  {
    if ds == [] {
      assert ds + rest == rest;
    } else {
      assert (ds + rest)[1..] == ds[1..] + rest;
      LeadingDigitsOf(ds[1..], rest);
    }
  }

  /** parseInt reads back every integer written in decimal, whatever
      non-digit text follows it. */
  lemma ParseIntDecimal(n: nat, rest: string)
    requires rest == [] || !IsDigit(rest[0])
    ensures ParseInt(Decimal(n) + rest) == Some(n)
  {
    DecimalValue(n);
    UnsignedParse(Decimal(n), rest);
  }

  /** ... and with a sign in front. */
  lemma ParseIntSignedDecimal(n: nat, rest: string)
    requires rest == [] || !IsDigit(rest[0])
    ensures ParseInt(['-'] + (Decimal(n) + rest)) == Some(-(n as int))
    ensures ParseInt(['+'] + (Decimal(n) + rest)) == Some(n)
  {
    DecimalValue(n);
    DigitsParse(Decimal(n), rest);
    SignedParse(Decimal(n) + rest);
  }

  lemma UnsignedParse(ds: string, rest: string)
    requires ds != [] && forall k | 0 <= k < |ds| :: IsDigit(ds[k])
    requires rest == [] || !IsDigit(rest[0])
    ensures ParseInt(ds + rest) == Some(DigitsValue(ds))
  {
    DigitsParse(ds, rest);
    assert (ds + rest)[0] == ds[0];
  }

  lemma DigitsParse(ds: string, rest: string)
    requires ds != [] && forall k | 0 <= k < |ds| :: IsDigit(ds[k])
    requires rest == [] || !IsDigit(rest[0])
    ensures ParseDigits(ds + rest) == Some(DigitsValue(ds))
  {
    LeadingDigitsOf(ds, rest);
  }

  /** A sign in front of a token: '-' negates what the digits denote, '+'
      changes nothing. */
  lemma SignedParse(t: string)
    ensures ParseInt(['-'] + t) == match ParseDigits(t) case None => None case Some(v) => Some(-v)
    ensures ParseInt(['+'] + t) == ParseDigits(t)
  {
    DropSign('-', t);
    DropSign('+', t);
  }

  lemma DropSign(sign: char, t: string)
    ensures ([sign] + t)[1..] == t && ([sign] + t)[0] == sign
  {
  }

  /** A token that starts with neither a digit nor a sign is not a number;
      in particular the sentinel is not. */
  lemma ParseIntRejects(t: string)
    requires t == [] || (!IsDigit(t[0]) && t[0] != '-' && t[0] != '+')
    ensures ParseInt(t) == None
  {
  }

  /** `.map(p => parseInt(p, 10)).filter(p => !isNaN(p))`. */
  function Priorities(tokens: seq<string>): (r: seq<int>)
    ensures |r| <= |tokens|
  {
    if tokens == [] then []
    else TokenValue(tokens[0]) + Priorities(tokens[1..])
  }

  lemma {:induction false} PrioritiesAppend(a: seq<string>, b: seq<string>)
    ensures Priorities(a + b) == Priorities(a) + Priorities(b)
  {
    if a != [] {
      assert (a + b)[1..] == a[1..] + b;
      PrioritiesAppend(a[1..], b);
    } else {
      assert a + b == b;
    }
  }

  /** What one token contributes: its value, or nothing when it is NaN. */
  function TokenValue(t: string): (r: seq<int>)
    ensures |r| <= 1
  {
    match ParseInt(t) case None => [] case Some(v) => [v]
  }

  /** A token contributes its value, if any, in its place. */
  lemma PrioritiesToken(a: seq<string>, t: string, b: seq<string>)
    ensures Priorities(a + [t] + b) == Priorities(a) + TokenValue(t) + Priorities(b)
  {
    PrioritiesAppend(a + [t], b);
    PrioritiesAppend(a, [t]);
    PrioritiesSingle(t);
  }

  lemma PrioritiesSingle(t: string)
    ensures Priorities([t]) == TokenValue(t)
  {
    assert [t][1..] == [];
  }

  // ---------------------------------------------------------------------
  // One line

  /** `checkAndRemoveMorningFlag` (App.tsx:51-57): a trailing sentinel
      token is removed and sets the flag. */
  function StripMorningFlag(tokens: seq<string>): (r: (seq<string>, bool))
    ensures r.1 <==> tokens != [] && IsMorningFlag(tokens[|tokens| - 1])
    ensures r.0 == if r.1 then tokens[..|tokens| - 1] else tokens
  {
    if tokens != [] && IsMorningFlag(tokens[|tokens| - 1]) then (tokens[..|tokens| - 1], true)
    else (tokens, false)
  }

  /** Stripping loses nothing but the sentinel: the tokens are what is
      kept followed by the removed token, if any, and a token is removed
      exactly when the last one is "X" or "x". */
  lemma StripMorningFlagRestores(tokens: seq<string>)
    ensures var (kept, morning) := StripMorningFlag(tokens);
      && tokens == kept + (if morning then [tokens[|tokens| - 1]] else [])
      && (morning <==> tokens != [] && (tokens[|tokens| - 1] == "X" || tokens[|tokens| - 1] == "x"))
  {
    if tokens != [] {
      MorningFlagIsX(tokens[|tokens| - 1]);
    }
  }

  /** Appending a sentinel and stripping it gives back the tokens. */
  lemma StripMorningFlagAdded(tokens: seq<string>, flag: string)
    requires flag == "X" || flag == "x"
    ensures StripMorningFlag(tokens + [flag]) == (tokens, true)
  {
    MorningFlagIsX(flag);
    assert (tokens + [flag])[..|tokens|] == tokens;
  }

  function HasClassId(id: string): ClassGroup -> bool
  {
    (c: ClassGroup) => c.id == id
  }

  function HasLetter(letter: string): ClassGroup -> bool
  {
    (c: ClassGroup) => c.letter == letter
  }

  /** The label of a bulk line's class letter that names no class
      (App.tsx:89). */
  function UnknownClassName(letter: string): string
  {
    letter + " (Unbekannt)"
  }

  /** The student a line yields (App.tsx:40-113), with `id` as its fresh
      id; `forced` is the class id of single-class mode, "" in bulk mode
      (the handler tests it for truthiness). */
  function ParseLine(line: string, classes: seq<ClassGroup>, forced: string, id: string): Option<Student>
  {
    if Trim(line) == [] then None else ParseFields(Fields(line), classes, forced, id)
  }

  /** The student the trimmed fields of a non-blank line yield. */
  function ParseFields(parts: seq<string>, classes: seq<ClassGroup>, forced: string, id: string): Option<Student>
    requires |parts| >= 1
  {
    if forced != [] then
      match Find(HasClassId(forced), classes)
      case None => None
      case Some(c) =>
        var (tokens, morning) := StripMorningFlag(parts[1..]);
        NewStudent(id, parts[0], c.name, c.letter, Priorities(tokens), morning)
    else if |parts| < 3 then None
    else
      var letter := ToUpper(parts[1]);
      var (className, classLetter) := match Find(HasLetter(letter), classes)
        case Some(c) => (c.name, c.letter)
        case None => (UnknownClassName(letter), letter);
      var (tokens, morning) := StripMorningFlag(parts[2..]);
      NewStudent(id, parts[0], className, classLetter, Priorities(tokens), morning)
  }

  /** The record pushed for a non-empty name (App.tsx:101-112). */
  function NewStudent(id: string, name: string, className: string, classLetter: string,
                      priorities: seq<int>, morning: bool): Option<Student>
  {
    if name == [] then None
    else Some(Student(id, name, className, classLetter, priorities, [], morning, false))
  }

  /** The priority tokens of a line: after the name, and after the class
      letter in bulk mode. */
  function PriorityTokens(parts: seq<string>, forced: string): seq<string>
    requires |parts| >= 1
  {
    if forced != [] then parts[1..] else if |parts| < 2 then [] else parts[2..]
  }

  /** Blank lines are skipped (App.tsx:40). */
  lemma BlankLineSkipped(line: string, classes: seq<ClassGroup>, forced: string, id: string)
    requires forall k | 0 <= k < |line| :: IsSpace(line[k])
    ensures ParseLine(line, classes, forced, id) == None
  {
    TrimBlank(line);
  }

  /** A line without a name yields nothing (App.tsx:101). */
  lemma EmptyNameSkipped(parts: seq<string>, classes: seq<ClassGroup>, forced: string, id: string)
    requires |parts| >= 1 && parts[0] == []
    ensures ParseFields(parts, classes, forced, id) == None
  {
  }

  /** In single-class mode a class id that names no class yields nothing
      (App.tsx:62-63). */
  lemma UnknownForcedClass(line: string, classes: seq<ClassGroup>, forced: string, id: string)
    requires forced != [] && forall k | 0 <= k < |classes| :: classes[k].id != forced
    ensures ParseLine(line, classes, forced, id) == None
  {
  }

  /** In bulk mode a line with fewer than three fields yields nothing
      (App.tsx:79). */
  lemma ShortBulkLine(parts: seq<string>, classes: seq<ClassGroup>, id: string)
    requires 1 <= |parts| < 3
    ensures ParseFields(parts, classes, [], id) == None
  {
  }

  /** What every student the fields of a line yield looks like: the fresh
      id, the first field as its name, the priority tokens that parse, in
      order, after a trailing X or x is removed and sets the morning-only
      flag, no assignments and no lock. */
  lemma ParsedFields(parts: seq<string>, classes: seq<ClassGroup>, forced: string, id: string)
    requires |parts| >= 1 && ParseFields(parts, classes, forced, id).Some?
    ensures var s := ParseFields(parts, classes, forced, id).value;
      var tokens := PriorityTokens(parts, forced);
      var flagged := tokens != [] && (tokens[|tokens| - 1] == "X" || tokens[|tokens| - 1] == "x");
      && s.id == id && s.name == parts[0] && s.name != []
      && s.isMorningOnly == flagged
      && s.priorities == Priorities(if flagged then tokens[..|tokens| - 1] else tokens)
      && s.assignedActivityIds == [] && !s.isLocked
  {
    var tokens := PriorityTokens(parts, forced);
    if tokens != [] {
      MorningFlagIsX(tokens[|tokens| - 1]);
    }
  }

  /** A line yields a student only if it is not blank, and then from its
      trimmed fields. */
  lemma ParsedLine(line: string, classes: seq<ClassGroup>, forced: string, id: string)
    requires ParseLine(line, classes, forced, id).Some?
    ensures Trim(line) != [] && ParseLine(line, classes, forced, id) == ParseFields(Fields(line), classes, forced, id)
    ensures NewRecord(ParseLine(line, classes, forced, id).value, id)
  {
    ParsedFields(Fields(line), classes, forced, id);
  }

  /** The class of a single-class line is the forced class. */
  lemma ForcedClass(parts: seq<string>, classes: seq<ClassGroup>, forced: string, id: string)
    requires |parts| >= 1 && forced != [] && ParseFields(parts, classes, forced, id).Some?
    ensures var s := ParseFields(parts, classes, forced, id).value;
      exists k | 0 <= k < |classes| :: classes[k].id == forced
        && s.className == classes[k].name && s.classLetter == classes[k].letter
  {
  }

  /** The class of a bulk line: the first class with the upper-cased
      letter, or that letter labelled as unknown (App.tsx:82-91). */
  lemma BulkClass(parts: seq<string>, classes: seq<ClassGroup>, id: string)
    requires |parts| >= 1 && ParseFields(parts, classes, [], id).Some?
    ensures |parts| >= 3
    ensures var s := ParseFields(parts, classes, [], id).value;
      var letter := ToUpper(parts[1]);
      && s.classLetter == letter
      && ((forall k | 0 <= k < |classes| :: classes[k].letter != letter) ==> s.className == UnknownClassName(letter))
      && (forall k | 0 <= k < |classes| && classes[k].letter == letter ::
            exists j | 0 <= j <= k :: classes[j].letter == letter && s.className == classes[j].name)
  {
    var letter := ToUpper(parts[1]);
    var s := ParseFields(parts, classes, [], id).value;
    var found := Find(HasLetter(letter), classes);
    if found.Some? {
      var j :| 0 <= j < |classes| && classes[j] == found.value && HasLetter(letter)(classes[j])
        && forall i | 0 <= i < j :: !HasLetter(letter)(classes[i]);
      forall k | 0 <= k < |classes| && classes[k].letter == letter
        ensures exists j | 0 <= j <= k :: (classes[j].letter == letter && s.className == classes[j].name)
      {
        assert j <= k by {
          if k < j {
            assert false;
          }
        }
      }
    }
  }

  // ---------------------------------------------------------------------
  // The whole text

  /** A parser of one line, given the fresh id to use. */
  type LineParser = (string, string) -> Option<Student>

  /** The line parser of an import into `classes`. */
  function ImportLine(classes: seq<ClassGroup>, forced: string): LineParser
  {
    (line: string, id: string) => ParseLine(line, classes, forced, id)
  }

  /** The students the lines yield, in order; the k-th student produced
      receives the fresh id uuid(k). */
  function ParseLines(lines: seq<string>, parse: LineParser, uuid: nat -> string): (r: seq<Student>)
    ensures |r| <= |lines|
  {
    if lines == [] then []
    else
      var prev := ParseLines(lines[..|lines| - 1], parse, uuid);
      match parse(lines[|lines| - 1], uuid(|prev|))
      case None => prev
      case Some(s) => prev + [s]
  }

  /** The `forEach` over the lines with its `push` (App.tsx:39-113). */
  method CollectStudents(lines: seq<string>, parse: LineParser, uuid: nat -> string)
    returns (students: seq<Student>)
    ensures students == ParseLines(lines, parse, uuid)
  {
    students := [];
    for i := 0 to |lines|
      invariant students == ParseLines(lines[..i], parse, uuid)
    {
      assert lines[..i + 1][..i] == lines[..i];
      var parsed := parse(lines[i], uuid(|students|));
      if parsed.Some? {
        students := students + [parsed.value];
      }
    }
    assert lines[..|lines|] == lines;
  }

  /** parseCSV (App.tsx:31-116). */
  method ParseCsv(text: string, classes: seq<ClassGroup>, forced: string, uuid: nat -> string)
    returns (students: seq<Student>)
    ensures students == ParseLines(Lines(text), ImportLine(classes, forced), uuid)
  {
    students := CollectStudents(Lines(text), ImportLine(classes, forced), uuid);
  }

  /** A new student record: the given id, a name, no assignments, no lock. */
  predicate NewRecord(s: Student, id: string)
  {
    s.id == id && s.name != [] && s.assignedActivityIds == [] && !s.isLocked
  }

  ghost predicate MakesNewRecords(parse: LineParser)
  {
    forall line, id :: parse(line, id).Some? ==> NewRecord(parse(line, id).value, id)
  }

  lemma ImportLineMakesNewRecords(classes: seq<ClassGroup>, forced: string)
    ensures MakesNewRecords(ImportLine(classes, forced))
  {
    forall line, id | ImportLine(classes, forced)(line, id).Some?
      ensures NewRecord(ImportLine(classes, forced)(line, id).value, id)
    {
      ParsedLine(line, classes, forced, id);
    }
  }

  lemma {:induction false} ParseLinesNew(lines: seq<string>, parse: LineParser, uuid: nat -> string)
    requires MakesNewRecords(parse)
    ensures var r := ParseLines(lines, parse, uuid); forall k | 0 <= k < |r| :: NewRecord(r[k], uuid(k))
  {
    if lines != [] {
      ParseLinesNew(lines[..|lines| - 1], parse, uuid);
    }
  }

  /** Every imported student is new: the k-th produced one has the k-th
      fresh id, a name, no assignments and no lock (App.tsx:101-112). */
  lemma ImportedStudents(text: string, classes: seq<ClassGroup>, forced: string, uuid: nat -> string)
    ensures var r := ParseLines(Lines(text), ImportLine(classes, forced), uuid);
      forall k | 0 <= k < |r| ::
        r[k].id == uuid(k) && r[k].name != [] && r[k].assignedActivityIds == [] && !r[k].isLocked
  {
    ImportLineMakesNewRecords(classes, forced);
    ParseLinesNew(Lines(text), ImportLine(classes, forced), uuid);
  }

  /** A line the parser rejects whatever the id changes nothing, not even
      the ids the other students receive. */
  lemma {:induction false} RejectedLineIgnored(a: seq<string>, line: string, b: seq<string>,
                                               parse: LineParser, uuid: nat -> string)
    requires forall id :: parse(line, id) == None
    ensures ParseLines(a + [line] + b, parse, uuid) == ParseLines(a + b, parse, uuid)
    decreases |b|
  {
    if b == [] {
      assert (a + [line] + b)[..|a|] == a;
      assert a + [line] + b == a + [line] && a + b == a;
    } else {
      var b' := b[..|b| - 1];
      RejectedLineIgnored(a, line, b', parse, uuid);
      assert (a + [line] + b)[..|a + [line] + b| - 1] == a + [line] + b';
      assert (a + b)[..|a + b| - 1] == a + b';
    }
  }

  /** A blank line anywhere among the lines changes nothing. */
  lemma BlankLineIgnored(a: seq<string>, blank: string, b: seq<string>,
                         classes: seq<ClassGroup>, forced: string, uuid: nat -> string)
    requires forall k | 0 <= k < |blank| :: IsSpace(blank[k])
    ensures ParseLines(a + [blank] + b, ImportLine(classes, forced), uuid)
         == ParseLines(a + b, ImportLine(classes, forced), uuid)
  {
    forall id ensures ImportLine(classes, forced)(blank, id) == None {
      BlankLineSkipped(blank, classes, forced, id);
    }
    RejectedLineIgnored(a, blank, b, ImportLine(classes, forced), uuid);
  }

  lemma {:induction false} RejectAllYieldsNothing(lines: seq<string>, parse: LineParser, uuid: nat -> string)
    requires forall line, id :: parse(line, id) == None
    ensures ParseLines(lines, parse, uuid) == []
  {
    if lines != [] {
      RejectAllYieldsNothing(lines[..|lines| - 1], parse, uuid);
    }
  }

  /** With an unknown forced class id the import yields nobody. */
  lemma UnknownForcedClassYieldsNothing(text: string, classes: seq<ClassGroup>, forced: string,
                                        uuid: nat -> string)
    requires forced != [] && forall k | 0 <= k < |classes| :: classes[k].id != forced
    ensures ParseLines(Lines(text), ImportLine(classes, forced), uuid) == []
  {
    forall line, id ensures ImportLine(classes, forced)(line, id) == None {
      UnknownForcedClass(line, classes, forced, id);
    }
    RejectAllYieldsNothing(Lines(text), ImportLine(classes, forced), uuid);
  }

  // ---------------------------------------------------------------------
  // Reading back a line written in the single-class format

  /** Priorities written in decimal. */
  function Decimals(ps: seq<nat>): (r: seq<string>)
    ensures |r| == |ps| && forall k | 0 <= k < |ps| :: r[k] == Decimal(ps[k])
  {
    seq(|ps|, k requires 0 <= k < |ps| => Decimal(ps[k]))
  }

  /** The line `Name,P1,P2,...[,X]` of the single-class format. */
  function StudentLine(name: string, ps: seq<nat>, morning: bool): string
  {
    Join([name] + Decimals(ps) + (if morning then ["X"] else []), ',')
  }

  /** A name the format can carry: not empty, no separator, no white space
      at either end. */
  predicate PlainName(name: string)
  {
    && name != [] && !IsSpace(name[0]) && !IsSpace(name[|name| - 1])
    && forall k | 0 <= k < |name| :: name[k] != ',' && name[k] != ';'
  }

  /** Splitting undoes joining with a separator the pieces do not
      contain. */
  lemma {:induction false} SplitOfJoin(pieces: seq<string>, c: char, seps: set<char>)
    requires |pieces| >= 1 && c in seps
    requires forall p, k | 0 <= p < |pieces| && 0 <= k < |pieces[p]| :: pieces[p][k] !in seps
    ensures Split(Join(pieces, c), seps) == pieces
  {
    if |pieces| == 1 {
      SplitWhole(pieces[0], seps);
    } else {
      SplitOfJoin(pieces[1..], c, seps);
      SplitPiece(pieces[0], c, Join(pieces[1..], c), seps);
    }
  }

  lemma {:induction false} PrioritiesOfDecimals(ps: seq<nat>)
    ensures Priorities(Decimals(ps)) == ps
  {
    if ps != [] {
      PrioritiesOfDecimals(ps[1..]);
      ParseIntDecimal(ps[0], []);
      assert Decimals(ps) == [] + [Decimal(ps[0])] + Decimals(ps[1..]);
      PrioritiesToken([], Decimal(ps[0]), Decimals(ps[1..]));
      assert Decimal(ps[0]) + [] == Decimal(ps[0]);
    }
  }

  /** A decimal number is never the sentinel. */
  lemma DecimalNotFlag(n: nat)
    ensures !IsMorningFlag(Decimal(n))
  {
    MorningFlagIsX(Decimal(n));
  }

  /** The fields of a written line are its pieces. */
  lemma StudentLineFields(name: string, ps: seq<nat>, morning: bool)
    requires PlainName(name)
    ensures Fields(StudentLine(name, ps, morning)) == [name] + Decimals(ps) + (if morning then ["X"] else [])
  {
    var pieces := [name] + Decimals(ps) + (if morning then ["X"] else []);
    forall p, k | 0 <= p < |pieces| && 0 <= k < |pieces[p]| ensures pieces[p][k] != ',' && pieces[p][k] != ';' {
      if 0 < p <= |ps| {
        assert pieces[p] == Decimal(ps[p - 1]);
      }
    }
    forall p | 0 <= p < |pieces| ensures Tight(pieces[p]) {
      if 0 < p <= |ps| {
        assert pieces[p] == Decimal(ps[p - 1]);
      }
    }
    FieldsOfJoin(pieces, ',');
  }

  /** A joined text starts with its first piece. */
  lemma JoinStarts(pieces: seq<string>, c: char)
    requires |pieces| >= 1
    ensures |Join(pieces, c)| >= |pieces[0]| && Join(pieces, c)[..|pieces[0]|] == pieces[0]
  {
    if |pieces| > 1 {
      assert Join(pieces, c) == pieces[0] + ([c] + Join(pieces[1..], c));
    }
  }

  /** The priority tokens of a written line carry its priorities and its
      flag. */
  lemma WrittenTokens(ps: seq<nat>, morning: bool)
    ensures var tokens := Decimals(ps) + (if morning then ["X"] else []);
      var flagged := tokens != [] && (tokens[|tokens| - 1] == "X" || tokens[|tokens| - 1] == "x");
      && flagged == morning
      && Priorities(if flagged then tokens[..|tokens| - 1] else tokens) == ps
  {
    var tokens := Decimals(ps) + (if morning then ["X"] else []);
    if morning {
      assert tokens[|tokens| - 1] == "X";
      assert tokens[..|tokens| - 1] == Decimals(ps);
    } else {
      assert tokens == Decimals(ps);
      if ps != [] {
        DecimalNotFlag(ps[|ps| - 1]);
        MorningFlagIsX(Decimal(ps[|ps| - 1]));
      }
    }
    PrioritiesOfDecimals(ps);
  }

  /** In single-class mode a line with a name and a known class yields a
      student. */
  lemma ForcedYields(parts: seq<string>, classes: seq<ClassGroup>, forced: string, id: string)
    requires |parts| >= 1 && parts[0] != []
    requires forced != [] && exists k | 0 <= k < |classes| :: classes[k].id == forced
    ensures ParseFields(parts, classes, forced, id).Some?
  {
    var k :| 0 <= k < |classes| && classes[k].id == forced;
    assert HasClassId(forced)(classes[k]);
  }

  /** The fields of a written line yield its name, priorities and flag. */
  lemma StudentFieldsParse(name: string, ps: seq<nat>, morning: bool,
                           classes: seq<ClassGroup>, forced: string, id: string)
    requires name != []
    requires forced != [] && exists k | 0 <= k < |classes| :: classes[k].id == forced
    ensures var s := ParseFields([name] + Decimals(ps) + (if morning then ["X"] else []), classes, forced, id);
      && s.Some? && s.value.name == name && s.value.priorities == ps && s.value.isMorningOnly == morning
      && s.value.assignedActivityIds == [] && !s.value.isLocked
  {
    var parts := [name] + Decimals(ps) + (if morning then ["X"] else []);
    assert parts[0] == name;
    assert PriorityTokens(parts, forced) == Decimals(ps) + (if morning then ["X"] else []);
    ForcedYields(parts, classes, forced, id);
    ParsedFields(parts, classes, forced, id);
    WrittenTokens(ps, morning);
  }

  /** Import reads back what the single-class format writes: the name, the
      priorities in their order and the morning-only flag. */
  lemma StudentLineRoundTrip(name: string, ps: seq<nat>, morning: bool,
                             classes: seq<ClassGroup>, forced: string, id: string)
    requires PlainName(name)
    requires forced != [] && exists k | 0 <= k < |classes| :: classes[k].id == forced
    ensures var s := ParseLine(StudentLine(name, ps, morning), classes, forced, id);
      && s.Some? && s.value.name == name && s.value.priorities == ps && s.value.isMorningOnly == morning
      && s.value.assignedActivityIds == [] && !s.value.isLocked
  {
    var line := StudentLine(name, ps, morning);
    var parts := [name] + Decimals(ps) + (if morning then ["X"] else []);
    JoinStarts(parts, ',');
    assert line[0] == name[0];
    TrimBlank(line);
    StudentLineFields(name, ps, morning);
    StudentFieldsParse(name, ps, morning, classes, forced, id);
  }

  /** `Anna,5,2,1,X` imported into a class gives priorities [5, 2, 1] and
      the morning-only flag. */
  lemma AnnaExample(name: string, classes: seq<ClassGroup>, forced: string, id: string)
    requires name == "Anna"
    requires forced != [] && exists k | 0 <= k < |classes| :: classes[k].id == forced
    ensures var s := ParseLine(name + ",5,2,1,X", classes, forced, id);
      s.Some? && s.value.name == "Anna" && s.value.priorities == [5, 2, 1] && s.value.isMorningOnly
      && s.value.assignedActivityIds == [] && !s.value.isLocked
  {
    var ps: seq<nat> := [5, 2, 1];
    StudentLineRoundTrip(name, ps, true, classes, forced, id);
    AnnaLine(name, ps);
  }

  lemma AnnaLine(name: string, ps: seq<nat>)
    requires ps == [5, 2, 1]
    ensures StudentLine(name, ps, true) == name + ",5,2,1,X"
  {
    assert Decimals(ps) == ["5", "2", "1"];
    var pieces := [name] + Decimals(ps) + ["X"];
    assert Join(["X"], ',') == "X";
    JoinCons("1", ["X"], ',');
    assert Join(["1", "X"], ',') == "1,X";
    JoinCons("2", ["1", "X"], ',');
    assert Join(["2", "1", "X"], ',') == "2,1,X";
    JoinCons("5", ["2", "1", "X"], ',');
    assert Join(["5", "2", "1", "X"], ',') == "5,2,1,X";
    assert pieces == [name] + ["5", "2", "1", "X"];
    JoinCons(name, ["5", "2", "1", "X"], ',');
  }

  lemma JoinCons(p: string, rest: seq<string>, c: char)
    requires rest != []
    ensures Join([p] + rest, c) == p + [c] + Join(rest, c)
  {
    assert ([p] + rest)[1..] == rest;
  }
}
