/** The few pieces of Rust's `str` API the solvers use to read their input lines:
    `split` on a character, `split_whitespace`, and `parse` into an unsigned
    integer type. */
module Text {
  import opened Wrappers

  /** `u32::MAX`. */
  const U32Max: nat := 0xFFFF_FFFF
  /** `u64::MAX`, which is also `usize::MAX` on the 64-bit targets the solvers run on. */
  const U64Max: nat := 0xFFFF_FFFF_FFFF_FFFF

  // ---------------------------------------------------------------------------
  // split(c)
  // ---------------------------------------------------------------------------

  function Occurrences(s: string, c: char): nat {
    if s == [] then 0 else (if s[0] == c then 1 else 0) + Occurrences(s[1..], c)
  }

  /** `s.split(sep)`: the pieces between separators, empty pieces included. */
  function Split(s: string, sep: char): (parts: seq<string>)
    ensures |parts| == Occurrences(s, sep) + 1
  {
    if s == [] then [""]
    else
      var rest := Split(s[1..], sep);
      if s[0] == sep then [""] + rest else [[s[0]] + rest[0]] + rest[1..]
  }

  /** The pieces joined back with the separator between them. */
  function Join(parts: seq<string>, sep: char): string
    requires |parts| > 0
  {
    if |parts| == 1 then parts[0] else parts[0] + [sep] + Join(parts[1..], sep)
  }

  /** No piece holds the separator. */
  lemma {:induction false} SplitPieces(s: string, sep: char)
    ensures forall k, i :: 0 <= k < |Split(s, sep)| && 0 <= i < |Split(s, sep)[k]| ==> Split(s, sep)[k][i] != sep
  {
    if s != [] {
      SplitPieces(s[1..], sep);
    }
  }

  /** Joining what `split` returns gives the string back. */
  lemma {:induction false} SplitJoin(s: string, sep: char)
    ensures Join(Split(s, sep), sep) == s
  {
    if s != [] {
      var rest := Split(s[1..], sep);
      SplitJoin(s[1..], sep);
      if s[0] != sep && |rest| > 1 {
        assert ([s[0]] + rest[0]) + [sep] + Join(rest[1..], sep) == [s[0]] + (rest[0] + [sep] + Join(rest[1..], sep));
      }
    }
  }

  /** Splitting a join of separator-free pieces gives the pieces back. */
  lemma {:induction false} JoinSplit(parts: seq<string>, sep: char)
    requires |parts| > 0
    requires forall k, i :: 0 <= k < |parts| && 0 <= i < |parts[k]| ==> parts[k][i] != sep
    ensures Split(Join(parts, sep), sep) == parts
  {
    if |parts| == 1 {
      SplitPiece(parts[0], [], sep);
      assert parts[0] + [] == parts[0];
      assert parts == [parts[0]];
    } else {
      JoinSplit(parts[1..], sep);
      var tail := [sep] + Join(parts[1..], sep);
      assert Join(parts, sep) == parts[0] + tail;
      SplitPiece(parts[0], tail, sep);
      assert tail[1..] == Join(parts[1..], sep);
    }
  }

  /** A separator-free piece in front of a string that is empty or starts with the
      separator becomes the first part. */
  lemma {:induction false} SplitPiece(p: string, rest: string, sep: char)
    requires forall i :: 0 <= i < |p| ==> p[i] != sep
    requires rest == [] || rest[0] == sep
    ensures Split(p + rest, sep) == if rest == [] then [p] else [p] + Split(rest[1..], sep)
  {
    if p != [] {
      SplitPiece(p[1..], rest, sep);
      assert (p + rest)[1..] == p[1..] + rest;
      assert [p[0]] + p[1..] == p;
    } else if rest != [] {
      assert p + rest == rest;
    }
  }

  // ---------------------------------------------------------------------------
  // split_whitespace()
  // ---------------------------------------------------------------------------

  /** `char::is_whitespace`: the characters with the Unicode White_Space property. */
  predicate IsWhitespace(c: char) {
    ('\t' <= c <= '\r') || c == ' ' || c == '\U{0085}' || c == '\U{00A0}' || c == '\U{1680}' ||
    ('\U{2000}' <= c <= '\U{200A}') || c == '\U{2028}' || c == '\U{2029}' || c == '\U{202F}' ||
    c == '\U{205F}' || c == '\U{3000}'
  }

  /** A word of `split_whitespace`: non-empty, without whitespace. */
  predicate IsWord(w: string) {
    |w| > 0 && forall i :: 0 <= i < |w| ==> !IsWhitespace(w[i])
  }

  /** `s.split_whitespace()`: the maximal runs of non-whitespace characters. */
  function Words(s: string): (ws: seq<string>)
    ensures forall k :: 0 <= k < |ws| ==> IsWord(ws[k])
    ensures s != [] && !IsWhitespace(s[0]) ==> |ws| > 0 && |ws[0]| > 0 && ws[0][0] == s[0]
  {
    if s == [] then []
    else if IsWhitespace(s[0]) then Words(s[1..])
    else
      var rest := Words(s[1..]);
      if |s| > 1 && !IsWhitespace(s[1]) then [[s[0]] + rest[0]] + rest[1..] else [[s[0]]] + rest
  }

  /** A word followed by nothing or by whitespace is the first word. */
  lemma {:induction false} WordsFront(w: string, rest: string)
    requires IsWord(w) && (rest == [] || IsWhitespace(rest[0]))
    ensures Words(w + rest) == [w] + Words(rest)
  {
    var s := w + rest;
    assert s[1..] == w[1..] + rest;
    if |w| > 1 {
      WordsFront(w[1..], rest);
      assert [w[0]] + w[1..] == w;
    } else {
      assert s[1..] == rest;
      assert w == [s[0]];
    }
  }

  /** Splitting words joined by single spaces gives the words back. */
  lemma {:induction false} JoinWords(ws: seq<string>)
    requires |ws| > 0 && forall k :: 0 <= k < |ws| ==> IsWord(ws[k])
    ensures Words(Join(ws, ' ')) == ws
  {
    if |ws| == 1 {
      WordsFront(ws[0], []);
      assert ws[0] + [] == ws[0];
    } else {
      JoinWords(ws[1..]);
      var rest := [' '] + Join(ws[1..], ' ');
      assert Join(ws, ' ') == ws[0] + rest;
      WordsFront(ws[0], rest);
      assert rest[1..] == Join(ws[1..], ' ');
    }
  }

  // ---------------------------------------------------------------------------
  // parse::<uN>()
  // ---------------------------------------------------------------------------

  predicate IsDigit(c: char) {
    '0' <= c <= '9'
  }

  predicate AllDigits(s: string) {
    forall i :: 0 <= i < |s| ==> IsDigit(s[i])
  }

  function DigitValue(c: char): (d: nat)
    requires IsDigit(c)
    ensures d < 10
  {
    (c as int) - ('0' as int)
  }

  /** The value of a string of decimal digits, most significant first. */
  function Value(ds: string): nat
    requires AllDigits(ds)
  {
    if ds == [] then 0 else Value(ds[..|ds| - 1]) * 10 + DigitValue(ds[|ds| - 1])
  }

  /** `s.parse::<uN>()` for an unsigned type whose largest value is `max`: an optional
      `+`, then at least one ASCII digit and nothing else, of value at most `max`. */
  function ParseUnsigned(s: string, max: nat): (r: Option<nat>)
    ensures r.Some? ==> r.value <= max
    ensures r.Some? ==> |s| > 0 && (IsDigit(s[0]) || s[0] == '+')
    ensures |s| > 0 && IsDigit(s[0]) ==> (r.Some? <==> AllDigits(s) && Value(s) <= max)
    ensures |s| > 0 && AllDigits(s) && Value(s) <= max ==> r == Some(Value(s))
  {
    var ds := if |s| > 0 && s[0] == '+' then s[1..] else s;
    if |ds| > 0 && AllDigits(ds) && Value(ds) <= max then Some(Value(ds)) else None
  }

  /** A single leading `+` before a digit changes nothing: "+t" parses exactly as `t`. */
  lemma ParsePlus(t: string, max: nat)
    requires |t| > 0 && IsDigit(t[0])
    ensures ParseUnsigned("+" + t, max) == ParseUnsigned(t, max)
  {
    assert ("+" + t)[1..] == t;
  }

  /** The decimal digits of `n`, without leading zeros. */
  function Decimal(n: nat): (s: string)
    ensures |s| > 0 && AllDigits(s)
    ensures n >= 10 ==> s[0] != '0'
  {
    if n < 10 then [('0' as int + n) as char] else Decimal(n / 10) + [('0' as int + n % 10) as char]
  }

  lemma {:induction false} DecimalValue(n: nat)
    ensures Value(Decimal(n)) == n
  {
    if n >= 10 {
      DecimalValue(n / 10);
      var s := Decimal(n);
      assert s[..|s| - 1] == Decimal(n / 10);
    }
  }

  /** Parsing the decimal form of a representable number gives the number back. */
  lemma ParseDecimal(n: nat, max: nat)
    requires n <= max
    ensures ParseUnsigned(Decimal(n), max) == Some(n)
  {
    DecimalValue(n);
  }

  /** Only one sign is taken, and never alone: "+5" is five, but "++5" is refused,
      although the text after its first `+` parses, and so is "+". */
  lemma SinglePlus(max: nat)
    requires max >= 5
    ensures ParseUnsigned("+5", max) == Some(5)
    ensures ParseUnsigned("++5", max) == None
    ensures ParseUnsigned("+", max) == None
  {
    assert "+5"[1..] == "5";
    assert "5"[..0] == [];
  }
}
