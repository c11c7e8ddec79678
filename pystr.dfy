/**
 * The three Python string built-ins the probes rely on, as functions on
 * `string`: `str.split(sep)` with an explicit one-character separator,
 * `str.split()` with no argument (runs of whitespace), and `int()` on a
 * decimal literal, together with the exceptions the probes can meet.
 */
module PyStr {
  import opened Wrappers

  /** The exceptions raised by the built-ins used here. */
  datatype PyError =
    | PopFromEmptyList                  // IndexError from `[].pop(0)`
    | InvalidIntLiteral(literal: string) // ValueError from `int(literal)`

  // ---------------------------------------------------------------------
  // str.split(sep) and sep.join(pieces)
  // ---------------------------------------------------------------------

  /** `s.split(sep)`: the pieces between occurrences of `sep`, empty pieces kept. */
  function SplitOn(s: string, sep: char): (pieces: seq<string>)
    ensures |pieces| >= 1
  {
    if s == [] then [[]]
    else
      var rest := SplitOn(s[1..], sep);
      if s[0] == sep then [[]] + rest else [[s[0]] + rest[0]] + rest[1..]
  }

  /** `sep.join(pieces)`. */
  function Join(pieces: seq<string>, sep: char): string
  {
    if |pieces| == 0 then []
    else if |pieces| == 1 then pieces[0]
    else pieces[0] + [sep] + Join(pieces[1..], sep)
  }

  /** Joining the pieces of `s.split(sep)` with `sep` gives back `s`, and no piece holds `sep`. */
  lemma {:induction false} JoinSplitOn(s: string, sep: char)
    ensures Join(SplitOn(s, sep), sep) == s
    ensures forall i :: 0 <= i < |SplitOn(s, sep)| ==> sep !in SplitOn(s, sep)[i]
  {
    if s != [] {
      var rest := SplitOn(s[1..], sep);
      JoinSplitOn(s[1..], sep);
      assert s == [s[0]] + s[1..];
      if s[0] == sep {
        assert ([[]] + rest)[1..] == rest;
      } else {
        var pieces := [[s[0]] + rest[0]] + rest[1..];
        assert pieces[1..] == rest[1..];
        if |rest| > 1 {
          assert Join(rest, sep) == rest[0] + [sep] + Join(rest[1..], sep);
        }
        forall i | 0 <= i < |pieces| ensures sep !in pieces[i] {
          if i > 0 { assert pieces[i] == rest[i]; }
        }
      }
    }
  }

  /** Splitting a join of `sep`-free pieces gives back the pieces. */
  lemma {:induction false} SplitOnJoin(pieces: seq<string>, sep: char)
    requires |pieces| >= 1
    requires forall i :: 0 <= i < |pieces| ==> sep !in pieces[i]
    ensures SplitOn(Join(pieces, sep), sep) == pieces
  {
    if |pieces| == 1 {
      SplitOnFree(pieces[0], [], sep);
      assert pieces[0] + [] == pieces[0];
    } else {
      SplitOnJoin(pieces[1..], sep);
      SplitOnFree(pieces[0], [sep] + Join(pieces[1..], sep), sep);
      assert pieces[0] + [sep] + Join(pieces[1..], sep)
          == pieces[0] + ([sep] + Join(pieces[1..], sep));
      var tail := Join(pieces[1..], sep);
      assert ([sep] + tail)[0] == sep && ([sep] + tail)[1..] == tail;
      assert SplitOn([sep] + tail, sep) == [[]] + SplitOn(tail, sep);
      var r := SplitOn(Join(pieces, sep), sep);
      assert r[0] == pieces[0] && r[1..] == pieces[1..];
      assert r == [r[0]] + r[1..];
      assert [pieces[0]] + pieces[1..] == pieces;
    }
  }

  /** A `sep`-free prefix is glued onto the first piece of what follows. */
  lemma {:induction false} SplitOnFree(p: string, x: string, sep: char)
    requires sep !in p
    ensures SplitOn(p + x, sep)[0] == p + SplitOn(x, sep)[0]
    ensures SplitOn(p + x, sep)[1..] == SplitOn(x, sep)[1..]
  {
    if p == [] {
      assert p + x == x;
    } else {
      SplitOnFree(p[1..], x, sep);
      assert (p + x)[0] == p[0] && (p + x)[1..] == p[1..] + x;
      assert p == [p[0]] + p[1..];
    }
  }

  /**
   * The last piece of `s.split(sep)` is the suffix of `s` after its last
   * `sep`, or all of `s` when `s` holds no `sep`.
   */
  lemma LastPiece(s: string, sep: char)
    ensures var last := SplitOn(s, sep)[|SplitOn(s, sep)| - 1];
      && sep !in last
      && |last| <= |s| && s[|s| - |last|..] == last
      && (sep !in s ==> last == s)
      && (sep in s ==> |last| < |s| && s[|s| - |last| - 1] == sep)
  {
    var pieces := SplitOn(s, sep);
    var last := pieces[|pieces| - 1];
    JoinSplitOn(s, sep);
    if |pieces| == 1 {
      assert s == last;
    } else {
      var front := Join(pieces[..|pieces| - 1], sep);
      JoinLast(pieces, sep);
      assert s == front + [sep] + last;
      assert s[|s| - |last|..] == last;
      assert s[|s| - |last| - 1] == sep;
    }
  }

  /** `sep.join` of two or more pieces ends with `sep` and the last piece. */
  lemma {:induction false} JoinLast(pieces: seq<string>, sep: char)
    requires |pieces| >= 2
    ensures Join(pieces, sep) == Join(pieces[..|pieces| - 1], sep) + [sep] + pieces[|pieces| - 1]
  {
    if |pieces| > 2 {
      JoinLast(pieces[1..], sep);
      assert pieces[1..][..|pieces| - 2] == pieces[..|pieces| - 1][1..];
    }
  }

  // ---------------------------------------------------------------------
  // str.split() with no argument
  // ---------------------------------------------------------------------

  /** The characters `str.split()` treats as whitespace on a byte string: space, tab, LF, VT, FF, CR. */
  predicate IsSpace(c: char)
  {
    c == ' ' || '\t' <= c <= '\r'
  }

  predicate AllSpace(s: string)
  {
    forall i :: 0 <= i < |s| ==> IsSpace(s[i])
  }

  /** A word is what `str.split()` can return as one token: non-empty, no whitespace. */
  predicate IsWord(s: string)
  {
    |s| > 0 && forall i :: 0 <= i < |s| ==> !IsSpace(s[i])
  }

  /**
   * `s.split()`: the maximal whitespace-free runs of `s`, in order. A
   * non-space character either starts a new word (when it is first or
   * follows whitespace) or extends the word already begun.
   */
  function Split(s: string): (words: seq<string>)
    ensures s != [] && !IsSpace(s[0]) ==> words != []
  {
    if s == [] then []
    else
      var rest := Split(s[1..]);
      if IsSpace(s[0]) then rest
      else if |s| > 1 && !IsSpace(s[1]) then [[s[0]] + rest[0]] + rest[1..]
      else [[s[0]]] + rest
  }

  /** Every token of `s.split()` is a word. */
  lemma {:induction false} SplitWords(s: string)
    ensures forall i :: 0 <= i < |Split(s)| ==> IsWord(Split(s)[i])
  {
    if s != [] {
      var rest := Split(s[1..]);
      SplitWords(s[1..]);
      var words := Split(s);
      if !IsSpace(s[0]) {
        if |s| > 1 && !IsSpace(s[1]) {
          forall i | 0 <= i < |words| ensures IsWord(words[i]) {
            if i > 0 { assert words[i] == rest[i]; }
            else { assert words[0] == [s[0]] + rest[0]; }
          }
        } else {
          forall i | 0 <= i < |words| ensures IsWord(words[i]) {
            if i > 0 { assert words[i] == rest[i - 1]; }
          }
        }
      }
    }
  }

  /** `s.split()` is empty exactly when `s` is all whitespace (or empty). */
  lemma {:induction false} SplitEmpty(s: string)
    ensures Split(s) == [] <==> AllSpace(s)
  {
    if s != [] {
      SplitEmpty(s[1..]);
      if IsSpace(s[0]) {
        if AllSpace(s[1..]) {
          forall i | 0 <= i < |s| ensures IsSpace(s[i]) {
            if i > 0 { assert s[i] == s[1..][i - 1]; }
          }
        } else {
          var i :| 0 <= i < |s[1..]| && !IsSpace(s[1..][i]);
          assert s[i + 1] == s[1..][i];
        }
      }
    }
  }

  /** Leading whitespace does not change `str.split()`. */
  lemma {:induction false} SplitSpacePrefix(w: string, s: string)
    requires AllSpace(w)
    ensures Split(w + s) == Split(s)
  {
    if w == [] {
      assert w + s == s;
    } else {
      assert (w + s)[0] == w[0] && (w + s)[1..] == w[1..] + s;
      SplitSpacePrefix(w[1..], s);
    }
  }

  /** A word on its own splits into itself. */
  lemma {:induction false} SplitWord(word: string)
    requires IsWord(word)
    ensures Split(word) == [word]
  {
    if |word| > 1 {
      SplitWord(word[1..]);
      assert word[1..][0] == word[1];
      assert [word[0]] + word[1..] == word;
    } else {
      assert word[1..] == [] && [word[0]] == word;
    }
  }

  /** A word followed by more whitespace-free text is a word. */
  lemma WordConcat(a: string, b: string)
    requires IsWord(a)
    requires forall i :: 0 <= i < |b| ==> !IsSpace(b[i])
    ensures IsWord(a + b)
  {
    forall i | 0 <= i < |a + b| ensures !IsSpace((a + b)[i]) {
      if i < |a| { assert (a + b)[i] == a[i]; } else { assert (a + b)[i] == b[i - |a|]; }
    }
  }

  /** A single whitespace character separates the tokens of its two sides. */
  lemma {:induction false} SplitAppend(a: string, c: char, b: string)
    requires IsSpace(c)
    ensures Split(a + [c] + b) == Split(a) + Split(b)
  {
    var s := a + [c] + b;
    if a == [] {
      assert s[0] == c && s[1..] == b;
    } else {
      SplitAppend(a[1..], c, b);
      var tail := a[1..] + [c] + b;
      assert s[0] == a[0] && s[1..] == tail;
      assert tail[0] == if a[1..] == [] then c else a[1];
      if !IsSpace(a[0]) && !IsSpace(tail[0]) {
        assert a[1..] != [] && !IsSpace(a[1..][0]);
        assert Split(tail)[0] == Split(a[1..])[0];
        assert Split(tail)[1..] == Split(a[1..])[1..] + Split(b);
      }
    }
  }

  /** After optional whitespace, a word followed by whitespace or the end is the first token. */
  lemma SplitWordFirst(w: string, word: string, rest: string)
    requires AllSpace(w) && IsWord(word)
    requires rest == [] || IsSpace(rest[0])
    ensures Split(w + word + rest) == [word] + Split(rest)
  {
    SplitWord(word);
    SplitSpacePrefix(w, word + rest);
    assert w + word + rest == w + (word + rest);
    if rest == [] {
      assert word + rest == word;
    } else {
      SplitAppend(word, rest[0], rest[1..]);
      assert word + rest == word + [rest[0]] + rest[1..];
      SplitSpacePrefix([rest[0]], rest[1..]);
      assert rest == [rest[0]] + rest[1..];
    }
  }

  /** Splitting words joined by single spaces gives back the words. */
  lemma {:induction false} SplitJoinWords(words: seq<string>)
    requires forall i :: 0 <= i < |words| ==> IsWord(words[i])
    ensures Split(Join(words, ' ')) == words
  {
    if |words| == 1 {
      SplitWord(words[0]);
    } else if |words| > 1 {
      SplitJoinWords(words[1..]);
      SplitWord(words[0]);
      SplitAppend(words[0], ' ', Join(words[1..], ' '));
      assert [words[0]] + words[1..] == words;
    }
  }

  // ---------------------------------------------------------------------
  // int() on a decimal literal, and its inverse str()
  // ---------------------------------------------------------------------

  predicate IsDigit(c: char)
  {
    '0' <= c <= '9'
  }

  predicate AllDigits(s: string)
  {
    forall i :: 0 <= i < |s| ==> IsDigit(s[i])
  }

  predicate IsSign(c: char)
  {
    c == '+' || c == '-'
  }

  /** The number a string of decimal digits denotes, most significant digit first. */
  function DigitsValue(s: string): nat
    requires AllDigits(s)
  {
    if s == [] then 0 else 10 * DigitsValue(s[..|s| - 1]) + (s[|s| - 1] as int - '0' as int)
  }

  /**
   * `int(tok)` with base 10 on a token without surrounding whitespace: an
   * optional `+` or `-` followed by one or more ASCII digits (leading
   * zeros allowed); anything else raises ValueError.
   */
  function ParseInt(tok: string): Result<int, PyError>
  {
    var signed := |tok| > 0 && IsSign(tok[0]);
    var digits := if signed then tok[1..] else tok;
    if |digits| > 0 && AllDigits(digits) then
      var v: int := DigitsValue(digits);
      Ok(if signed && tok[0] == '-' then -v else v)
    else
      Err(InvalidIntLiteral(tok))
  }

  /** The digit character for `d`. */
  function DigitChar(d: nat): char
    requires d < 10
  {
    ('0' as int + d) as char
  }

  /** `str(n)` for a natural number: its decimal digits, no leading zero. */
  function ShowNat(n: nat): string
  {
    if n < 10 then [DigitChar(n)] else ShowNat(n / 10) + [DigitChar(n % 10)]
  }

  /** `str(n)` for an integer. */
  function ShowInt(n: int): string
  {
    if n < 0 then "-" + ShowNat(-n) else ShowNat(n)
  }

  /** `str(n)` is a non-empty digit string without a leading zero that denotes `n`. */
  lemma {:induction false} ShowNatDigits(n: nat)
    ensures |ShowNat(n)| >= 1 && AllDigits(ShowNat(n))
    ensures ShowNat(n)[0] != '0' || n == 0
    ensures DigitsValue(ShowNat(n)) == n
  {
    if n >= 10 {
      ShowNatDigits(n / 10);
      var s := ShowNat(n);
      assert s[..|s| - 1] == ShowNat(n / 10);
    }
  }

  /** `int()` accepts one or more digits after an optional sign, and reads their decimal value. */
  lemma ParseIntAccepts(sign: string, digits: string)
    requires sign == "" || sign == "+" || sign == "-"
    requires |digits| > 0 && AllDigits(digits)
    ensures ParseInt(sign + digits) == Ok(if sign == "-" then -(DigitsValue(digits) as int) else DigitsValue(digits))
  {
    var tok := sign + digits;
    if sign == "" {
      assert tok == digits && IsDigit(digits[0]);
    } else {
      assert tok[0] == sign[0] && tok[1..] == digits;
    }
  }

  /** `int(str(n)) == n` for every integer `n`. */
  lemma ParseShowInt(n: int)
    ensures ParseInt(ShowInt(n)) == Ok(n)
  {
    if n < 0 {
      ShowNatDigits(-n);
      ParseIntAccepts("-", ShowNat(-n));
    } else {
      ShowNatDigits(n);
      ParseIntAccepts("", ShowNat(n));
      assert "" + ShowNat(n) == ShowNat(n);
    }
  }

  /** Leading zeros and a `+` sign change nothing: `int("+" + "0" * k + str(n)) == n`. */
  lemma ParsePaddedNat(n: nat, plus: bool, pad: string)
    requires forall i :: 0 <= i < |pad| ==> pad[i] == '0'
    ensures ParseInt((if plus then "+" else "") + pad + ShowNat(n)) == Ok(n)
  {
    ShowNatDigits(n);
    var digits := pad + ShowNat(n);
    LeadingZeros(pad, ShowNat(n));
    var sign := if plus then "+" else "";
    ParseIntAccepts(sign, digits);
    assert sign + pad + ShowNat(n) == sign + digits;
  }

  /** Zeros in front of a digit string do not change its value. */
  lemma {:induction false} LeadingZeros(pad: string, s: string)
    requires forall i :: 0 <= i < |pad| ==> pad[i] == '0'
    requires AllDigits(s)
    ensures AllDigits(pad + s) && DigitsValue(pad + s) == DigitsValue(s)
    decreases |s|
  {
    assert AllDigits(pad + s) by {
      forall i | 0 <= i < |pad + s| ensures IsDigit((pad + s)[i]) {
        if i >= |pad| { assert (pad + s)[i] == s[i - |pad|]; }
      }
    }
    if s == [] {
      assert pad + s == pad;
      AllZeros(pad);
    } else {
      LeadingZeros(pad, s[..|s| - 1]);
      assert (pad + s)[..|pad + s| - 1] == pad + s[..|s| - 1];
    }
  }

  /** A string of zeros denotes zero. */
  lemma {:induction false} AllZeros(pad: string)
    requires forall i :: 0 <= i < |pad| ==> pad[i] == '0'
    ensures AllDigits(pad) && DigitsValue(pad) == 0
  {
    if pad != [] {
      AllZeros(pad[..|pad| - 1]);
    }
  }

  /**
   * The inverse direction of `ParseShowInt`: an unsigned digit string with
   * no leading zero is `str()` of the value `int()` reads from it.
   */
  lemma {:induction false} ShowParseCanonical(digits: string)
    requires |digits| >= 1 && AllDigits(digits)
    requires digits[0] != '0' || |digits| == 1
    ensures ShowNat(DigitsValue(digits)) == digits
    decreases |digits|
  {
    var v := DigitsValue(digits);
    var last := digits[|digits| - 1] as int - '0' as int;
    if |digits| == 1 {
      assert digits[..|digits| - 1] == [];
      assert DigitsValue(digits[..|digits| - 1]) == 0;
      assert v == last;
      assert [DigitChar(last)] == digits;
    } else {
      var front := digits[..|digits| - 1];
      DigitsPositive(front);
      ShowParseCanonical(front);
      assert v / 10 == DigitsValue(front) && v % 10 == last;
      assert front + [digits[|digits| - 1]] == digits;
    }
  }

  /** A digit string that does not start with `0` denotes a positive number. */
  lemma {:induction false} DigitsPositive(digits: string)
    requires |digits| >= 1 && AllDigits(digits) && digits[0] != '0'
    ensures DigitsValue(digits) > 0
  {
    if |digits| > 1 {
      DigitsPositive(digits[..|digits| - 1]);
    }
  }

  /** `int()` raises ValueError on an empty token, a lone sign, or any non-digit after the optional sign. */
  lemma ParseIntRejects(tok: string, i: nat)
    requires tok == [] || tok == "+" || tok == "-"
          || (i < |tok| && !IsDigit(tok[i]) && (i > 0 || !IsSign(tok[0])))
    ensures ParseInt(tok) == Err(InvalidIntLiteral(tok))
  {
    if i < |tok| && !IsDigit(tok[i]) && (i > 0 || !IsSign(tok[0])) {
      if IsSign(tok[0]) {
        assert tok[1..][i - 1] == tok[i];
      }
    }
  }
}
