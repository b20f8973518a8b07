/** The disk-activity scan of the idle phase: the text of /proc/diskstats is
    split into lines, each line into whitespace-separated tokens, and the
    first line whose twelfth token (I/Os currently in progress, per the
    Linux kernel's Documentation/admin-guide/iostats.rst) is a nonzero
    integer makes the disk "active". Lines with fewer tokens are skipped
    (the IndexError is caught); a twelfth token that is not an integer
    raises ValueError, which nothing catches. */
module DiskStats {
  import opened OledBase

  // ---------------------------------------------------------------------
  // str.split('\n')

  /** Python's s.split(sep) for a one-character separator: every
      occurrence of sep ends a piece, so there is always one more piece
      than there are separators. */
  function Split(s: string, sep: char): (r: seq<string>)
    ensures |r| >= 1
    ensures forall i :: 0 <= i < |r| ==> sep !in r[i]
    decreases |s|
  {
    if s == [] then [[]]
    else
      var rest := Split(s[1..], sep);
      if s[0] == sep then [[]] + rest
      else [[s[0]] + rest[0]] + rest[1..]
  }

  /** sep.join(parts). */
  function Join(parts: seq<string>, sep: char): string
    decreases |parts|
  {
    if parts == [] then []
    else if |parts| == 1 then parts[0]
    else parts[0] + [sep] + Join(parts[1..], sep)
  }

  /** Joining the pieces gives back the text: splitting loses nothing. */
  lemma {:induction false} JoinSplit(s: string, sep: char)
    ensures Join(Split(s, sep), sep) == s
    decreases |s|
  {
    if s != [] {
      var rest := Split(s[1..], sep);
      JoinSplit(s[1..], sep);
      if s[0] == sep {
        assert Split(s, sep) == [[]] + rest;
        assert ([[]] + rest)[1..] == rest;
      } else {
        var r := Split(s, sep);
        assert r == [[s[0]] + rest[0]] + rest[1..];
        if |rest| == 1 {
          assert r == [[s[0]] + rest[0]];
        } else {
          assert r[1..] == rest[1..];
          assert Join(rest, sep) == rest[0] + [sep] + Join(rest[1..], sep);
        }
      }
    }
  }

  /** Splitting a join of separator-free pieces gives back the pieces. */
  lemma {:induction false} SplitJoin(parts: seq<string>, sep: char)
    requires |parts| >= 1
    requires forall i :: 0 <= i < |parts| ==> sep !in parts[i]
    ensures Split(Join(parts, sep), sep) == parts
    decreases |parts|, |parts[0]|
  {
    var p := parts[0];
    if |parts| == 1 {
      SplitFree(p, sep);
    } else if p == [] {
      var tail := Join(parts[1..], sep);
      assert Join(parts, sep) == [sep] + tail;
      assert ([sep] + tail)[1..] == tail;
      SplitJoin(parts[1..], sep);
      assert [[]] + parts[1..] == parts;
    } else {
      var shorter := [p[1..]] + parts[1..];
      assert shorter[1..] == parts[1..];
      assert Join(shorter, sep) == p[1..] + [sep] + Join(parts[1..], sep);
      var whole := Join(parts, sep);
      assert whole == [p[0]] + Join(shorter, sep);
      assert whole[1..] == Join(shorter, sep);
      SplitJoin(shorter, sep);
      assert [p[0]] + p[1..] == p;
      assert [[p[0]] + shorter[0]] + shorter[1..] == parts;
    }
  }

  /** A text without the separator splits into itself. */
  lemma {:induction false} SplitFree(s: string, sep: char)
    requires sep !in s
    ensures Split(s, sep) == [s]
    decreases |s|
  {
    if s != [] {
      assert sep !in s[1..];
      SplitFree(s[1..], sep);
      assert [s[0]] + s[1..] == s;
    }
  }

  /** The lines of the diskstats text, as io.split('\n') gives them. */
  function Lines(io: string): seq<string>
  {
    Split(io, '\n')
  }

  // ---------------------------------------------------------------------
  // str.split()

  /** The characters str.split() treats as whitespace, ASCII range. */
  predicate IsSpace(c: char)
  {
    c == ' ' || c == '\t' || c == '\n' || c == '\r'
    || c == '\U{0B}' || c == '\U{0C}' || ('\U{1C}' <= c <= '\U{1F}')
  }

  predicate NoSpace(t: string)
  {
    forall j :: 0 <= j < |t| ==> !IsSpace(t[j])
  }

  /** Length of the token that starts s: the longest prefix without whitespace. */
  function TokenLength(s: string): (n: nat)
    ensures n <= |s|
    ensures NoSpace(s[..n])
    ensures n == |s| || IsSpace(s[n])
    decreases |s|
  {
    if s == [] || IsSpace(s[0]) then 0
    else
      var m := TokenLength(s[1..]);
      assert s[1..][..m] == s[1..m + 1];
      1 + m
  }

  /** Python's line.split(): the maximal runs of non-whitespace characters. */
  function Fields(s: string): (r: seq<string>)
    ensures forall i :: 0 <= i < |r| ==> r[i] != [] && NoSpace(r[i])
    decreases |s|
  {
    if s == [] then []
    else if IsSpace(s[0]) then Fields(s[1..])
    else
      var n := TokenLength(s);
      [s[..n]] + Fields(s[n..])
  }

  /** Tokens written out with single spaces between them are read back
      unchanged. */
  lemma {:induction false} FieldsOfSpaced(tokens: seq<string>)
    requires forall i :: 0 <= i < |tokens| ==> tokens[i] != [] && NoSpace(tokens[i])
    ensures Fields(Join(tokens, ' ')) == tokens
    decreases |tokens|
  {
    if |tokens| == 1 {
      FieldsOfToken(tokens[0], []);
      assert tokens[0] + [] == tokens[0];
    } else if |tokens| > 1 {
      var t := tokens[0];
      var rest := Join(tokens[1..], ' ');
      assert Join(tokens, ' ') == t + ([' '] + rest);
      FieldsOfToken(t, [' '] + rest);
      assert ([' '] + rest)[1..] == rest;
      FieldsOfSpaced(tokens[1..]);
      assert [t] + tokens[1..] == tokens;
    }
  }

  predicate AllSpace(w: string)
  {
    forall j :: 0 <= j < |w| ==> IsSpace(w[j])
  }

  /** ws[0] + tokens[0] + ws[1] + ... + tokens[n - 1] + ws[n]: tokens with
      runs of whitespace around and between them. */
  function Padded(ws: seq<string>, tokens: seq<string>): string
    requires |ws| == |tokens| + 1
    decreases |tokens|
  {
    if tokens == [] then ws[0]
    else ws[0] + tokens[0] + Padded(ws[1..], tokens[1..])
  }

  /** Runs of whitespace fit to pad tokens: the runs between two tokens are
      nonempty, the leading and trailing runs may be empty. */
  predicate Gaps(ws: seq<string>)
  {
    && (forall i :: 0 <= i < |ws| ==> AllSpace(ws[i]))
    && (forall i :: 0 < i < |ws| - 1 ==> ws[i] != [])
  }

  /** The runs of whitespace of s: before the first field, between two
      fields and after the last. */
  function Spaces(s: string): (ws: seq<string>)
    ensures |ws| == |Fields(s)| + 1
    ensures s != [] && IsSpace(s[0]) ==> ws[0] != []
    decreases |s|
  {
    if s == [] then [[]]
    else if IsSpace(s[0]) then
      var g := Spaces(s[1..]);
      [[s[0]] + g[0]] + g[1..]
    else [[]] + Spaces(s[TokenLength(s)..])
  }

  /** A line made of whitespace-free tokens with runs of whitespace around
      and between them (the padding of /proc/diskstats) splits into exactly
      those tokens, in order. */
  lemma {:induction false} FieldsOfPadded(ws: seq<string>, tokens: seq<string>)
    requires |ws| == |tokens| + 1 && Gaps(ws)
    requires forall i :: 0 <= i < |tokens| ==> tokens[i] != [] && NoSpace(tokens[i])
    ensures Fields(Padded(ws, tokens)) == tokens
    decreases |tokens|
  {
    FieldsOfSpace(ws[0], if tokens == [] then [] else tokens[0] + Padded(ws[1..], tokens[1..]));
    if tokens == [] {
      assert ws[0] + [] == ws[0];
    } else {
      var rest := Padded(ws[1..], tokens[1..]);
      assert Padded(ws, tokens) == ws[0] + (tokens[0] + rest);
      if |tokens| > 1 {
        assert ws[1] != [] && IsSpace(ws[1][0]);
        assert rest[0] == ws[1][0];
      } else {
        assert rest == ws[1];
      }
      FieldsOfToken(tokens[0], rest);
      assert Gaps(ws[1..]) by {
        assert forall i :: 0 < i < |ws[1..]| ==> ws[1..][i] == ws[i + 1];
      }
      FieldsOfPadded(ws[1..], tokens[1..]);
      assert [tokens[0]] + tokens[1..] == tokens;
    }
  }

  /** Conversely, every line is its fields padded by its runs of
      whitespace: str.split() drops whitespace and nothing else. */
  lemma {:induction false} PaddedFields(s: string)
    ensures Gaps(Spaces(s))
    ensures Padded(Spaces(s), Fields(s)) == s
    decreases |s|
  {
    if s != [] {
      if IsSpace(s[0]) {
        PaddedFields(s[1..]);
        SpaceFirst(s);
      } else {
        PaddedFields(s[TokenLength(s)..]);
        TokenFirst(s, TokenLength(s));
      }
    }
  }

  /** The step of PaddedFields for a line that starts with whitespace. */
  lemma SpaceFirst(s: string)
    requires s != [] && IsSpace(s[0])
    requires Gaps(Spaces(s[1..])) && Padded(Spaces(s[1..]), Fields(s[1..])) == s[1..]
    ensures Gaps(Spaces(s))
    ensures Padded(Spaces(s), Fields(s)) == s
  {
    var g := Spaces(s[1..]);
    var fs := Fields(s[1..]);
    assert Spaces(s) == [[s[0]] + g[0]] + g[1..];
    assert Fields(s) == fs;
    GapsCons(s[0], g);
    PaddedCons(s[0], g, fs);
    assert [s[0]] + s[1..] == s;
  }

  lemma GapsCons(c: char, g: seq<string>)
    requires IsSpace(c) && |g| >= 1 && Gaps(g)
    ensures Gaps([[c] + g[0]] + g[1..])
  {
    var ws := [[c] + g[0]] + g[1..];
    assert forall i :: 0 < i < |ws| ==> ws[i] == g[i];
    assert AllSpace(ws[0]);
  }

  lemma PaddedCons(c: char, g: seq<string>, fs: seq<string>)
    requires |g| == |fs| + 1
    ensures Padded([[c] + g[0]] + g[1..], fs) == [c] + Padded(g, fs)
  {
    var ws := [[c] + g[0]] + g[1..];
    assert ws[1..] == g[1..];
  }

  /** The step of PaddedFields for a line that starts with a field. */
  lemma TokenFirst(s: string, n: nat)
    requires s != [] && !IsSpace(s[0]) && n == TokenLength(s)
    requires Gaps(Spaces(s[n..])) && Padded(Spaces(s[n..]), Fields(s[n..])) == s[n..]
    ensures Gaps(Spaces(s))
    ensures Padded(Spaces(s), Fields(s)) == s
  {
    var t, rest := s[..n], s[n..];
    var g, fr := Spaces(rest), Fields(rest);
    TokenUnfold(s, n);
    GapsToken(g);
    PaddedToken(t, g, fr);
    ConcatSplit(s, n);
  }

  lemma ConcatSplit(s: string, n: nat)
    requires n <= |s|
    ensures s[..n] + s[n..] == s
  {
  }

  /** A line that starts with a field: that field, then the rest's fields,
      with an empty leading run; when more fields follow, the rest starts
      with whitespace. */
  lemma TokenUnfold(s: string, n: nat)
    requires s != [] && !IsSpace(s[0]) && n == TokenLength(s)
    ensures Spaces(s) == [[]] + Spaces(s[n..])
    ensures Fields(s) == [s[..n]] + Fields(s[n..])
    ensures |Spaces(s[n..])| > 1 ==> Spaces(s[n..])[0] != []
  {
    var rest := s[n..];
    if Fields(rest) != [] {
      assert rest != [];
      assert IsSpace(rest[0]);
    }
  }

  lemma GapsToken(g: seq<string>)
    requires |g| >= 1 && Gaps(g) && (|g| > 1 ==> g[0] != [])
    ensures Gaps([[]] + g)
  {
    var ws := [[]] + g;
    assert forall i :: 0 < i < |ws| ==> ws[i] == g[i - 1];
  }

  lemma PaddedToken(t: string, g: seq<string>, fs: seq<string>)
    requires |g| == |fs| + 1
    ensures Padded([[]] + g, [t] + fs) == t + Padded(g, fs)
  {
    var ws, ts := [[]] + g, [t] + fs;
    assert ws[0] == [] && ts[0] == t && ws[1..] == g && ts[1..] == fs;
    assert [] + t == t;
  }

  /** Leading whitespace is not a field. */
  lemma {:induction false} FieldsOfSpace(w: string, rest: string)
    requires AllSpace(w)
    ensures Fields(w + rest) == Fields(rest)
    decreases |w|
  {
    if w == [] {
      assert w + rest == rest;
    } else {
      assert (w + rest)[0] == w[0];
      assert (w + rest)[1..] == w[1..] + rest;
      FieldsOfSpace(w[1..], rest);
    }
  }

  /** A token followed by whitespace or by nothing is read as one field. */
  lemma FieldsOfToken(t: string, rest: string)
    requires t != [] && NoSpace(t)
    requires rest == [] || IsSpace(rest[0])
    ensures Fields(t + rest) == [t] + Fields(rest)
  {
    var s := t + rest;
    TokenOfPrefix(t, rest);
    assert s[..|t|] == t;
    assert s[|t|..] == rest;
  }

  lemma {:induction false} TokenOfPrefix(t: string, rest: string)
    requires t != [] && NoSpace(t)
    requires rest == [] || IsSpace(rest[0])
    ensures TokenLength(t + rest) == |t|
    decreases |t|
  {
    var s := t + rest;
    assert s[0] == t[0];
    if |t| > 1 {
      assert s[1..] == t[1..] + rest;
      TokenOfPrefix(t[1..], rest);
    } else {
      assert s[1..] == rest;
    }
  }

  // ---------------------------------------------------------------------
  // int(token)

  predicate IsDigit(c: char) { '0' <= c <= '9' }

  /** The digit part int() accepts: ASCII digits, with single underscores
      allowed between two digits. */
  predicate DigitGroups(t: string)
  {
    && |t| >= 1
    && IsDigit(t[0])
    && IsDigit(t[|t| - 1])
    && (forall i :: 0 <= i < |t| ==> IsDigit(t[i]) || t[i] == '_')
    && (forall i :: 0 <= i < |t| - 1 && t[i] == '_' ==> IsDigit(t[i + 1]))
  }

  /** The digits of t with the underscores taken out. */
  function DropUnderscores(t: string): (d: string)
    ensures forall i :: 0 <= i < |d| ==> d[i] != '_'
    ensures forall i :: 0 <= i < |d| ==> d[i] in t
    decreases |t|
  {
    if t == [] then []
    else (if t[0] == '_' then [] else [t[0]]) + DropUnderscores(t[1..])
  }

  function DigitValue(c: char): nat
    requires IsDigit(c)
  {
    c as int - '0' as int
  }

  /** The value of a string of decimal digits, most significant first. */
  function DigitsValue(d: string): nat
    requires forall i :: 0 <= i < |d| ==> IsDigit(d[i])
    decreases |d|
  {
    if d == [] then 0
    else DigitsValue(d[..|d| - 1]) * 10 + DigitValue(d[|d| - 1])
  }

  /** Python's int(token) on a token without whitespace: an optional sign,
      then digit groups; None stands for the ValueError. */
  function ParseInt(t: string): (r: Option<int>)
    ensures r.Some? <==> DigitGroups(t) || (|t| >= 1 && (t[0] == '+' || t[0] == '-') && DigitGroups(t[1..]))
  {
    if |t| >= 1 && (t[0] == '+' || t[0] == '-') then
      if DigitGroups(t[1..]) then
        var v: int := DigitsValue(DropUnderscores(t[1..]));
        Some(if t[0] == '-' then -v else v)
      else None
    else if DigitGroups(t) then Some(DigitsValue(DropUnderscores(t)))
    else None
  }

  /** A value of digits is zero exactly when every digit is '0'. */
  lemma {:induction false} DigitsValueZero(d: string)
    requires forall i :: 0 <= i < |d| ==> IsDigit(d[i])
    ensures DigitsValue(d) == 0 <==> forall i :: 0 <= i < |d| ==> d[i] == '0'
    decreases |d|
  {
    if d != [] {
      var init := d[..|d| - 1];
      DigitsValueZero(init);
      if DigitsValue(d) == 0 {
        forall i | 0 <= i < |d| ensures d[i] == '0' {
          if i < |d| - 1 { assert d[i] == init[i]; }
        }
      }
      if forall i :: 0 <= i < |d| ==> d[i] == '0' {
        assert forall i :: 0 <= i < |init| ==> init[i] == '0' by {
          forall i | 0 <= i < |init| ensures init[i] == '0' { assert init[i] == d[i]; }
        }
      }
    }
  }

  lemma {:induction false} DropUnderscoresDigits(t: string)
    ensures forall i :: 0 <= i < |t| && IsDigit(t[i]) ==> t[i] in DropUnderscores(t)
    decreases |t|
  {
    if t != [] {
      DropUnderscoresDigits(t[1..]);
      forall i | 0 <= i < |t| && IsDigit(t[i]) ensures t[i] in DropUnderscores(t) {
        if i > 0 { assert t[i] == t[1..][i - 1]; }
      }
    }
  }

  /** A parsed field is zero exactly when every digit in it is '0', so a
      field counts as activity exactly when it has a nonzero digit. */
  lemma ParseIntZero(t: string)
    requires ParseInt(t).Some?
    ensures ParseInt(t).value == 0 <==> forall i :: 0 <= i < |t| && IsDigit(t[i]) ==> t[i] == '0'
  {
    var g := if DigitGroups(t) && !(t[0] == '+' || t[0] == '-') then t else t[1..];
    var d := DropUnderscores(g);
    assert forall i :: 0 <= i < |d| ==> IsDigit(d[i]);
    DigitsValueZero(d);
    DropUnderscoresDigits(g);
    assert forall i :: 0 <= i < |t| && IsDigit(t[i]) ==> t[i] in g by {
      if g != t {
        forall i | 0 <= i < |t| && IsDigit(t[i]) ensures t[i] in g {
          assert i > 0;
          assert t[i] == g[i - 1];
        }
      }
    }
  }

  /** The decimal text of a natural number, as str() writes it. */
  function Decimal(n: nat): (s: string)
    ensures |s| >= 1 && forall i :: 0 <= i < |s| ==> IsDigit(s[i])
  {
    var last := ['0' + (n % 10) as char];
    if n < 10 then last else Decimal(n / 10) + last
  }

  /** int(str(n)) == n: the parser reads back what the counter writes. */
  lemma {:induction false} ParseDecimal(n: nat)
    ensures ParseInt(Decimal(n)) == Some(n)
  {
    var s := Decimal(n);
    NoUnderscoreDrop(s);
    DecimalValue(n);
  }

  lemma {:induction false} DecimalValue(n: nat)
    ensures DigitsValue(Decimal(n)) == n
  {
    var s := Decimal(n);
    if n >= 10 {
      DecimalValue(n / 10);
      assert s[..|s| - 1] == Decimal(n / 10);
    }
  }

  lemma {:induction false} NoUnderscoreDrop(s: string)
    requires forall i :: 0 <= i < |s| ==> IsDigit(s[i])
    ensures DropUnderscores(s) == s
    decreases |s|
  {
    if s != [] {
      NoUnderscoreDrop(s[1..]);
      assert [s[0]] + s[1..] == s;
    }
  }

  // ---------------------------------------------------------------------
  // the scan

  /** What the scan makes of one line. */
  datatype Verdict =
    | Short                  // fewer than IoField tokens: IndexError, skipped
    | Quiet                  // the field is an integer equal to 0
    | Busy                   // the field is a nonzero integer
    | Malformed(token: string) // the field is not an integer: ValueError

  function LineVerdict(line: string): Verdict
  {
    var fs := Fields(line);
    if |fs| < IoField then Short
    else
      match ParseInt(fs[IoField - 1])
      case None => Malformed(fs[IoField - 1])
      case Some(v) => if v != 0 then Busy else Quiet
  }

  /** A line the scan steps over. */
  predicate Passes(v: Verdict) { v.Short? || v.Quiet? }

  predicate HasNonzeroDigit(t: string)
  {
    exists i :: 0 <= i < |t| && IsDigit(t[i]) && t[i] != '0'
  }

  /** A line is busy exactly when it has at least IoField tokens and the
      IoField-th is an integer with a nonzero digit. */
  lemma BusyLine(line: string)
    ensures LineVerdict(line).Busy? <==>
      var fs := Fields(line);
      |fs| >= IoField && ParseInt(fs[IoField - 1]).Some? && HasNonzeroDigit(fs[IoField - 1])
  {
    var fs := Fields(line);
    if |fs| >= IoField && ParseInt(fs[IoField - 1]).Some? {
      ParseIntZero(fs[IoField - 1]);
    }
  }

  /** Outcome of one scan: whether the disk is active, or the token whose
      int() raised ValueError. */
  datatype ScanResult = Ok(active: bool) | ValueError(token: string)

  /** The scan of a list of lines: the first line that does not pass decides. */
  function DiskActivity(lines: seq<string>): ScanResult
    decreases |lines|
  {
    if lines == [] then Ok(false)
    else
      match LineVerdict(lines[0])
      case Busy => Ok(true)
      case Malformed(t) => ValueError(t)
      case _ => DiskActivity(lines[1..])
  }

  /** The for loop over io.split('\n'), with its flag and its break. */
  method ScanDiskStats(io: string) returns (r: ScanResult)
    ensures r == DiskActivity(Lines(io))
  {
    var lines := Lines(io);
    var diskActive := false;
    var i := 0;
    while i < |lines|
      invariant 0 <= i <= |lines|
      invariant !diskActive
      invariant DiskActivity(lines) == DiskActivity(lines[i..])
    {
      assert lines[i..][1..] == lines[i + 1..];
      var fs := Fields(lines[i]);
      if |fs| >= IoField {
        var v := ParseInt(fs[IoField - 1]);
        if v.None? {
          return ValueError(fs[IoField - 1]);
        }
        if v.value != 0 {
          diskActive := true;
          break;
        }
      }
      i := i + 1;
    }
    r := Ok(diskActive);
  }

  /** Active exactly when some line is busy and every line before it passes. */
  lemma {:induction false} ActiveIff(lines: seq<string>)
    ensures DiskActivity(lines) == Ok(true) <==>
      exists i :: 0 <= i < |lines| && LineVerdict(lines[i]).Busy?
        && forall j :: 0 <= j < i ==> Passes(LineVerdict(lines[j]))
    decreases |lines|
  {
    if lines != [] {
      ActiveIff(lines[1..]);
      var v := LineVerdict(lines[0]);
      if DiskActivity(lines) == Ok(true) && !v.Busy? {
        var i :| 0 <= i < |lines[1..]| && LineVerdict(lines[1..][i]).Busy?
          && forall j :: 0 <= j < i ==> Passes(LineVerdict(lines[1..][j]));
        assert forall j :: 0 <= j < i + 1 ==> Passes(LineVerdict(lines[j])) by {
          forall j | 0 <= j < i + 1 ensures Passes(LineVerdict(lines[j])) {
            if j > 0 { assert lines[j] == lines[1..][j - 1]; }
          }
        }
        assert LineVerdict(lines[i + 1]).Busy?;
      }
      if exists i :: 0 <= i < |lines| && LineVerdict(lines[i]).Busy?
           && forall j :: 0 <= j < i ==> Passes(LineVerdict(lines[j])) {
        var i :| 0 <= i < |lines| && LineVerdict(lines[i]).Busy?
          && forall j :: 0 <= j < i ==> Passes(LineVerdict(lines[j]));
        if i > 0 {
          assert Passes(LineVerdict(lines[0]));
          assert LineVerdict(lines[1..][i - 1]).Busy?;
          assert forall j :: 0 <= j < i - 1 ==> Passes(LineVerdict(lines[1..][j])) by {
            forall j | 0 <= j < i - 1 ensures Passes(LineVerdict(lines[1..][j])) {
              assert lines[1..][j] == lines[j + 1];
            }
          }
        }
      }
    }
  }

  /** Inactive exactly when every line passes. */
  lemma {:induction false} InactiveIff(lines: seq<string>)
    ensures DiskActivity(lines) == Ok(false) <==>
      forall i :: 0 <= i < |lines| ==> Passes(LineVerdict(lines[i]))
    decreases |lines|
  {
    if lines != [] {
      InactiveIff(lines[1..]);
      assert forall i :: 1 <= i < |lines| ==> lines[i] == lines[1..][i - 1];
    }
  }

  /** The scan raises ValueError exactly when some line is malformed and
      every line before it passes; the error names that line's token. */
  lemma {:induction false} ErrorIff(lines: seq<string>)
    ensures DiskActivity(lines).ValueError? <==>
      exists i :: 0 <= i < |lines| && LineVerdict(lines[i]).Malformed?
        && forall j :: 0 <= j < i ==> Passes(LineVerdict(lines[j]))
    decreases |lines|
  {
    if lines != [] {
      ErrorIff(lines[1..]);
      var v := LineVerdict(lines[0]);
      if DiskActivity(lines).ValueError? && !v.Malformed? {
        var i :| 0 <= i < |lines[1..]| && LineVerdict(lines[1..][i]).Malformed?
          && forall j :: 0 <= j < i ==> Passes(LineVerdict(lines[1..][j]));
        assert forall j :: 0 <= j < i + 1 ==> Passes(LineVerdict(lines[j])) by {
          forall j | 0 <= j < i + 1 ensures Passes(LineVerdict(lines[j])) {
            if j > 0 { assert lines[j] == lines[1..][j - 1]; }
          }
        }
        assert LineVerdict(lines[i + 1]).Malformed?;
      }
      if exists i :: 0 <= i < |lines| && LineVerdict(lines[i]).Malformed?
           && forall j :: 0 <= j < i ==> Passes(LineVerdict(lines[j])) {
        var i :| 0 <= i < |lines| && LineVerdict(lines[i]).Malformed?
          && forall j :: 0 <= j < i ==> Passes(LineVerdict(lines[j]));
        if i > 0 {
          assert Passes(LineVerdict(lines[0]));
          assert LineVerdict(lines[1..][i - 1]).Malformed?;
          assert forall j :: 0 <= j < i - 1 ==> Passes(LineVerdict(lines[1..][j])) by {
            forall j | 0 <= j < i - 1 ensures Passes(LineVerdict(lines[1..][j])) {
              assert lines[1..][j] == lines[j + 1];
            }
          }
        }
      }
    }
  }
}
