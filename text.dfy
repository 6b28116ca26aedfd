/** The handful of Python `str` operations the reader relies on, written out
    with Python's own semantics: `isspace`, `strip()`, `split()`,
    `split(" ", 2)`, `startswith`, `int()` on a string and list slicing with
    possibly negative or out-of-range bounds. */
module Text {
  import opened Wrappers

  /** Python's `str.isspace()` for one character: the characters that
      `strip()`, `split()` and `int()` treat as white space. */
  predicate IsSpace(c: char) {
    ('\t' <= c <= '\r') || ('\U{1C}' <= c <= ' ') || c == '\U{85}' || c == '\U{A0}'
    || c == '\U{1680}' || ('\U{2000}' <= c <= '\U{200A}') || c == '\U{2028}' || c == '\U{2029}'
    || c == '\U{202F}' || c == '\U{205F}' || c == '\U{3000}'
  }

  predicate AllSpace(s: string) {
    forall i :: 0 <= i < |s| ==> IsSpace(s[i])
  }

  predicate NoSpace(s: string) {
    forall i :: 0 <= i < |s| ==> !IsSpace(s[i])
  }

  predicate StartsWith(s: string, prefix: string) {
    |prefix| <= |s| && s[..|prefix|] == prefix
  }

  // ---------------------------------------------------------------- strip()

  /** `s.lstrip()`: `s` minus its longest all-space prefix. */
  function LStrip(s: string): (r: string)
    ensures |r| <= |s|
    ensures r == [] || !IsSpace(r[0])
  {
    if s != [] && IsSpace(s[0]) then LStrip(s[1..]) else s
  }

  /** What `lstrip()` removes is an all-space prefix. */
  lemma {:induction false} LStripSuffix(s: string)
    ensures LStrip(s) == s[|s| - |LStrip(s)|..] && AllSpace(s[..|s| - |LStrip(s)|])
    decreases |s|
  {
    if s != [] && IsSpace(s[0]) {
      LStripSuffix(s[1..]);
      assert s[..|s| - |LStrip(s)|] == [s[0]] + s[1..][..|s| - 1 - |LStrip(s)|];
    }
  }

  /** `s.rstrip()`: `s` minus its longest all-space suffix. */
  function RStrip(s: string): (r: string)
    ensures |r| <= |s|
    ensures r == [] || !IsSpace(r[|r| - 1])
  {
    if s != [] && IsSpace(s[|s| - 1]) then RStrip(s[..|s| - 1]) else s
  }

  /** What `rstrip()` removes is an all-space suffix. */
  lemma {:induction false} RStripPrefix(s: string)
    ensures RStrip(s) == s[..|RStrip(s)|] && AllSpace(s[|RStrip(s)|..])
    decreases |s|
  {
    if s != [] && IsSpace(s[|s| - 1]) {
      RStripPrefix(s[..|s| - 1]);
      assert s[|RStrip(s)|..] == s[..|s| - 1][|RStrip(s)|..] + [s[|s| - 1]];
    }
  }

  /** `s.strip()`. */
  function Strip(s: string): (r: string)
    ensures |r| <= |s|
    ensures r == [] || (!IsSpace(r[0]) && !IsSpace(r[|r| - 1]))
  {
    RStripPrefix(LStrip(s));
    RStrip(LStrip(s))
  }

  lemma {:induction false} LStripPadded(pad: string, t: string)
    requires AllSpace(pad)
    requires t == [] || !IsSpace(t[0])
    ensures LStrip(pad + t) == t
  {
    if pad != [] {
      assert (pad + t)[1..] == pad[1..] + t;
      LStripPadded(pad[1..], t);
    }
  }

  lemma {:induction false} RStripPadded(t: string, pad: string)
    requires AllSpace(pad)
    requires t == [] || !IsSpace(t[|t| - 1])
    ensures RStrip(t + pad) == t
  {
    if pad != [] {
      assert (t + pad)[..|t + pad| - 1] == t + pad[..|pad| - 1];
      RStripPadded(t, pad[..|pad| - 1]);
    }
  }

  /** Strip removes exactly the surrounding white space: a text whose ends
      are not blank, padded on both sides with white space, strips back to
      itself. */
  lemma StripPadded(left: string, t: string, right: string)
    requires AllSpace(left) && AllSpace(right)
    requires t == [] || (!IsSpace(t[0]) && !IsSpace(t[|t| - 1]))
    ensures Strip(left + t + right) == t
  {
    if t == [] {
      assert left + t + right == left + right;
      LStripPadded(left + right, []);
      assert left + right + [] == left + right;
    } else {
      assert left + t + right == left + (t + right);
      LStripPadded(left, t + right);
      RStripPadded(t, right);
    }
  }

  /** A text with non-blank ends is left alone by Strip. */
  lemma StripUnpadded(t: string)
    requires t == [] || (!IsSpace(t[0]) && !IsSpace(t[|t| - 1]))
    ensures Strip(t) == t
  {
    StripPadded([], t, []);
    assert [] + t + [] == t;
  }

  // ---------------------------------------------------------------- split()

  /** Length of the leading run of non-space characters. */
  function TokenEnd(s: string): (k: nat)
    ensures k <= |s| && NoSpace(s[..k])
    ensures k == |s| || IsSpace(s[k])
  {
    if s == [] || IsSpace(s[0]) then 0
    else
      var k := 1 + TokenEnd(s[1..]);
      assert s[..k] == [s[0]] + s[1..][..k - 1];
      k
  }

  /** `s.split()` with no argument: the maximal runs of non-space characters,
      in order. */
  function SplitWs(s: string): (r: seq<string>)
    ensures forall i :: 0 <= i < |r| ==> r[i] != [] && NoSpace(r[i])
    ensures r == [] <==> AllSpace(s)
    decreases |s|
  {
    if s == [] then []
    else if IsSpace(s[0]) then
      assert forall i :: 0 < i < |s| ==> s[i] == s[1..][i - 1];
      SplitWs(s[1..])
    else
      var k := TokenEnd(s);
      [s[..k]] + SplitWs(s[k..])
  }

  /** `" ".join(tokens)`. */
  function JoinSpace(tokens: seq<string>): string {
    if tokens == [] then ""
    else if |tokens| == 1 then tokens[0]
    else tokens[0] + " " + JoinSpace(tokens[1..])
  }

  lemma {:induction false} SplitWsLeadingSpace(pad: string, s: string)
    requires AllSpace(pad)
    ensures SplitWs(pad + s) == SplitWs(s)
  {
    if pad != [] {
      assert IsSpace((pad + s)[0]);
      assert (pad + s)[1..] == pad[1..] + s;
      SplitWsLeadingSpace(pad[1..], s);
    } else {
      assert pad + s == s;
    }
  }

  lemma {:induction false} TokenEndOfToken(t: string, rest: string)
    requires t != [] && NoSpace(t)
    requires rest == [] || IsSpace(rest[0])
    ensures TokenEnd(t + rest) == |t|
  {
    assert (t + rest)[0] == t[0];
    assert (t + rest)[1..] == t[1..] + rest;
    if |t| == 1 {
      assert t[1..] + rest == rest;
    } else {
      TokenEndOfToken(t[1..], rest);
    }
  }

  /** `split()` undoes `" ".join` for non-empty tokens without white space. */
  lemma {:induction false} SplitJoinSpace(tokens: seq<string>)
    requires forall i :: 0 <= i < |tokens| ==> tokens[i] != [] && NoSpace(tokens[i])
    ensures SplitWs(JoinSpace(tokens)) == tokens
  {
    if |tokens| == 1 {
      var t := tokens[0];
      TokenEndOfToken(t, []);
      assert t + [] == t;
      assert t[|t|..] == [];
    } else if |tokens| > 1 {
      var t := tokens[0];
      var s := JoinSpace(tokens);
      var tail := JoinSpace(tokens[1..]);
      assert s == t + (" " + tail);
      TokenEndOfToken(t, " " + tail);
      assert s[..|t|] == t;
      assert s[|t|..] == " " + tail;
      SplitJoinSpace(tokens[1..]);
      SplitWsLeadingSpace(" ", tail);
    }
  }

  /** A word followed by at least one space character is `split()`'s first
      piece, and splitting goes on after the spaces. */
  lemma SplitWsWord(t: string, ws: string, rest: string)
    requires t != [] && NoSpace(t)
    requires ws != [] && AllSpace(ws)
    ensures SplitWs(t + ws + rest) == [t] + SplitWs(rest)
  {
    var s := t + ws + rest;
    assert s == t + (ws + rest);
    TokenEndOfToken(t, ws + rest);
    assert s[..|t|] == t;
    assert s[|t|..] == ws + rest;
    SplitWsLeadingSpace(ws, rest);
  }

  // ------------------------------------------------------- split(" ", n)

  function IndexOf(s: string, c: char): (r: Option<nat>)
    ensures r.Some? ==> r.value < |s| && s[r.value] == c && c !in s[..r.value]
    ensures r.None? ==> c !in s
  {
    if s == [] then None
    else if s[0] == c then Some(0)
    else match IndexOf(s[1..], c)
      case None => None
      case Some(i) => Some(i + 1)
  }

  /** `s.split(" ", maxsplit)`: cut at the first `maxsplit` single spaces,
      keeping empty pieces, as Python does when a separator is given. */
  function SplitOnSpace(s: string, maxsplit: nat): (r: seq<string>)
    ensures 1 <= |r| <= maxsplit + 1
  {
    if maxsplit == 0 then [s]
    else match IndexOf(s, ' ')
      case None => [s]
      case Some(i) => [s[..i]] + SplitOnSpace(s[i + 1..], maxsplit - 1)
  }

  /** `sep.join(pieces)` for a one-character separator. */
  function JoinWith(pieces: seq<string>, sep: char): string
    requires |pieces| >= 1
  {
    if |pieces| == 1 then pieces[0] else pieces[0] + [sep] + JoinWith(pieces[1..], sep)
  }

  /** Splitting on a space loses nothing: joining the pieces back with a
      space gives the original text, and only the last piece may still hold
      a space. */
  lemma SplitOnSpaceJoin(s: string, maxsplit: nat)
    ensures JoinWith(SplitOnSpace(s, maxsplit), ' ') == s
    ensures forall i :: 0 <= i < |SplitOnSpace(s, maxsplit)| - 1 ==> ' ' !in SplitOnSpace(s, maxsplit)[i]
  {
    SplitOnSpaceRejoin(s, maxsplit);
    SplitOnSpacePieces(s, maxsplit);
  }

  lemma {:induction false} SplitOnSpaceRejoin(s: string, maxsplit: nat)
    ensures JoinWith(SplitOnSpace(s, maxsplit), ' ') == s
  {
    var found := IndexOf(s, ' ');
    if maxsplit > 0 && found.Some? {
      var i := found.value;
      var tail := SplitOnSpace(s[i + 1..], maxsplit - 1);
      SplitOnSpaceRejoin(s[i + 1..], maxsplit - 1);
      JoinAround(s, i, tail);
    }
  }

  /** Joining the text before a space with the pieces of the text after
      it gives the whole text back. */
  lemma JoinAround(s: string, i: nat, tail: seq<string>)
    requires i < |s| && s[i] == ' ' && |tail| >= 1 && JoinWith(tail, ' ') == s[i + 1..]
    ensures JoinWith([s[..i]] + tail, ' ') == s
  {
    var pieces := [s[..i]] + tail;
    assert pieces[0] == s[..i] && pieces[1..] == tail;
    Around(s, i);
  }

  /** A text is what comes before position `i`, the character there, and
      what comes after. */
  lemma Around(s: string, i: nat)
    requires i < |s|
    ensures s[..i] + [s[i]] + s[i + 1..] == s
  {
    assert s[i..] == [s[i]] + s[i + 1..];
    assert s == s[..i] + s[i..];
  }

  lemma {:induction false} SplitOnSpacePieces(s: string, maxsplit: nat)
    ensures forall i :: 0 <= i < |SplitOnSpace(s, maxsplit)| - 1 ==> ' ' !in SplitOnSpace(s, maxsplit)[i]
  {
    var found := IndexOf(s, ' ');
    if maxsplit > 0 && found.Some? {
      var i := found.value;
      var tail := SplitOnSpace(s[i + 1..], maxsplit - 1);
      var pieces := SplitOnSpace(s, maxsplit);
      SplitOnSpacePieces(s[i + 1..], maxsplit - 1);
      assert pieces == [s[..i]] + tail;
      forall k | 0 <= k < |pieces| - 1 ensures ' ' !in pieces[k] {
        if k > 0 {
          assert pieces[k] == tail[k - 1];
        }
      }
    }
  }

  // ------------------------------------------------------------------ int()

  predicate IsDigit(c: char) {
    '0' <= c <= '9'
  }

  /** The digit part that Python's `int()` accepts in base 10: decimal digits,
      optionally separated by single underscores, neither first nor last. */
  predicate WellFormedDigits(s: string) {
    |s| > 0 && IsDigit(s[0]) && IsDigit(s[|s| - 1]) &&
    forall i :: 0 <= i < |s| ==> DigitOrSeparator(s, i)
  }

  /** Position `i` holds a digit, or an underscore between two digits'
      worth of text (the next character a digit). */
  predicate DigitOrSeparator(s: string, i: nat)
    requires i < |s|
  {
    IsDigit(s[i]) || (s[i] == '_' && 0 < i < |s| - 1 && IsDigit(s[i + 1]))
  }

  /** The value of a digit string, skipping underscores. */
  function DigitsValue(s: string): nat {
    if s == [] then 0
    else
      var c := s[|s| - 1];
      if IsDigit(c) then DigitsValue(s[..|s| - 1]) * 10 + (c as int - '0' as int)
      else DigitsValue(s[..|s| - 1])
  }

  /** Python's `int(s)`: surrounding white space, an optional sign, then
      well-formed digits. `None` stands for the `ValueError` Python raises. */
  function ParseInt(s: string): (r: Option<int>)
  {
    var t := Strip(s);
    if |t| > 0 && (t[0] == '-' || t[0] == '+') then
      if WellFormedDigits(t[1..]) then
        var v: int := DigitsValue(t[1..]);
        Some(if t[0] == '-' then -v else v)
      else None
    else if WellFormedDigits(t) then Some(DigitsValue(t))
    else None
  }

  /** Python's `[int(x) for x in tokens]`: the integers, or the first token
      that is not one. */
  function ParseInts(tokens: seq<string>): (r: Result<seq<int>, string>)
    ensures r.Ok? ==> (|r.value| == |tokens| &&
      forall i :: 0 <= i < |tokens| ==> ParseInt(tokens[i]) == Some(r.value[i]))
    ensures r.Err? ==> r.error in tokens && ParseInt(r.error).None?
  {
    if tokens == [] then Ok([])
    else match ParseInt(tokens[0])
      case None => Err(tokens[0])
      case Some(v) =>
        match ParseInts(tokens[1..])
        case Err(bad) => Err(bad)
        case Ok(vs) => Ok([v] + vs)
  }

  /** Tokens that each parse to the matching value parse together to the
      list of values. */
  lemma {:induction false} ParseIntsAll(tokens: seq<string>, values: seq<int>)
    requires |tokens| == |values|
    requires forall i :: 0 <= i < |tokens| ==> ParseInt(tokens[i]) == Some(values[i])
    ensures ParseInts(tokens) == Ok(values)
  {
    if tokens != [] {
      ParseIntsAll(tokens[1..], values[1..]);
      assert [values[0]] + values[1..] == values;
    }
  }

  function DigitChar(d: nat): char
    requires d < 10
  {
    ('0' as int + d) as char
  }

  /** `str(n)` for a natural number. */
  function ShowNat(n: nat): (r: string)
    ensures |r| > 0 && forall i :: 0 <= i < |r| ==> IsDigit(r[i])
  {
    if n < 10 then [DigitChar(n)] else ShowNat(n / 10) + [DigitChar(n % 10)]
  }

  /** `str(n)` for an integer. */
  function ShowInt(n: int): string {
    if n < 0 then "-" + ShowNat(-n) else ShowNat(n)
  }

  lemma {:induction false} DigitsValueShowNat(n: nat)
    ensures DigitsValue(ShowNat(n)) == n
  {
    if n >= 10 {
      var s := ShowNat(n);
      assert s[..|s| - 1] == ShowNat(n / 10);
      DigitsValueShowNat(n / 10);
    }
  }

  /** `int(str(n)) == n`. */
  lemma ParseShowInt(n: int)
    ensures ParseInt(ShowInt(n)) == Some(n)
  {
    var s := ShowInt(n);
    var m: nat := if n < 0 then -n else n;
    var digits := ShowNat(m);
    assert WellFormedDigits(digits);
    DigitsValueShowNat(m);
    assert !IsSpace(digits[|digits| - 1]);
    if n < 0 {
      assert s == "-" + digits;
      assert !IsSpace(s[0]) && s[|s| - 1] == digits[|digits| - 1];
      StripUnpadded(s);
      assert s[1..] == digits;
    } else {
      assert s == digits;
      assert !IsSpace(s[0]);
      StripUnpadded(s);
    }
  }
  /** `str(n)` is a single token: non-empty, free of white space, starting
      with a digit or a minus sign and ending with a digit. */
  lemma ShowIntToken(n: int)
    ensures var s := ShowInt(n);
      s != [] && NoSpace(s) && ' ' !in s && (IsDigit(s[0]) || s[0] == '-') && IsDigit(s[|s| - 1])
  {
    var m: nat := if n < 0 then -n else n;
    var digits := ShowNat(m);
    assert forall i :: 0 <= i < |digits| ==> !IsSpace(digits[i]);
    if n < 0 {
      assert ShowInt(n) == "-" + digits;
    }
  }

  /** `str(n)` survives stripping and parses back to `n`. */
  lemma ParseStripShowInt(n: int)
    ensures Strip(ShowInt(n)) == ShowInt(n)
    ensures ParseInt(Strip(ShowInt(n))) == Some(n)
  {
    ShowIntToken(n);
    StripUnpadded(ShowInt(n));
    ParseShowInt(n);
  }

  /** The first and last characters of a space-joined text are those of its
      first and last tokens. */
  lemma {:induction false} JoinSpaceEnds(tokens: seq<string>)
    requires |tokens| >= 1 && forall i :: 0 <= i < |tokens| ==> tokens[i] != []
    ensures var s := JoinSpace(tokens);
      s != [] && s[0] == tokens[0][0] && s[|s| - 1] == tokens[|tokens| - 1][|tokens[|tokens| - 1]| - 1]
  {
    if |tokens| > 1 {
      JoinSpaceEnds(tokens[1..]);
    }
  }

  /** A space-joined line of tokens is left alone by `strip()`. */
  lemma StripJoinSpace(tokens: seq<string>)
    requires forall i :: 0 <= i < |tokens| ==> tokens[i] != [] && NoSpace(tokens[i])
    ensures Strip(JoinSpace(tokens)) == JoinSpace(tokens)
  {
    if tokens != [] {
      JoinSpaceEnds(tokens);
      var last := tokens[|tokens| - 1];
      assert !IsSpace(tokens[0][0]) && !IsSpace(last[|last| - 1]);
    }
    StripUnpadded(JoinSpace(tokens));
  }

  /** `split(" ", 2)` takes apart a line of two space-free fields and a
      rest, whatever the rest holds. */
  lemma SplitOnSpaceThree(a: string, b: string, c: string)
    requires ' ' !in a && ' ' !in b
    ensures SplitOnSpace(a + " " + b + " " + c, 2) == [a, b, c]
  {
    var s := a + " " + b + " " + c;
    IndexOfPrefix(a, ' ', " " + b + " " + c);
    assert s == a + (" " + b + " " + c);
    var t := s[|a| + 1..];
    assert t == b + (" " + c);
    IndexOfPrefix(b, ' ', " " + c);
    assert t[|b| + 1..] == c;
    assert s[..|a|] == a && t[..|b|] == b;
    assert SplitOnSpace(c, 0) == [c];
    assert SplitOnSpace(t, 1) == [b] + SplitOnSpace(c, 0);
    assert SplitOnSpace(s, 2) == [a] + SplitOnSpace(t, 1);
  }

  /** The first occurrence of `c` is found after a prefix free of it. */
  lemma {:induction false} IndexOfPrefix(p: string, c: char, rest: string)
    requires c !in p && rest != [] && rest[0] == c
    ensures IndexOf(p + rest, c) == Some(|p|)
  {
    if p != [] {
      assert (p + rest)[1..] == p[1..] + rest;
      IndexOfPrefix(p[1..], c, rest);
    } else {
      assert p + rest == rest;
    }
  }

  /** Python's normalisation of one slice bound against a length `n`:
      negative bounds count from the end, out-of-range bounds are clamped. */
  function SliceBound(i: int, n: nat): (r: nat)
    ensures r <= n
    ensures 0 <= i <= n ==> r == i
    ensures n < i ==> r == n
    ensures i < 0 && 0 <= i + n ==> r == i + n
    ensures i + n < 0 ==> r == 0
  {
    if i < 0 then (if i + n < 0 then 0 else i + n) else if i > n then n else i
  }

  /** `s[start:stop]` in Python: never fails, empty when the bounds cross. */
  function PySlice<T>(s: seq<T>, start: int, stop: int): (r: seq<T>)
    ensures |r| <= |s|
    ensures 0 <= start <= stop <= |s| ==> r == s[start..stop]
    ensures 0 <= start <= |s| <= stop ==> r == s[start..]
  {
    var a := SliceBound(start, |s|);
    var b := SliceBound(stop, |s|);
    if a < b then s[a..b] else []
  }

  /** Bounds that cross once normalised give the empty slice: a negative
      length such as `xs[3:3 + k]` with `k < 0` selects nothing. */
  lemma PySliceCrossed<T>(s: seq<T>, start: int, stop: int)
    requires SliceBound(stop, |s|) <= SliceBound(start, |s|)
    ensures PySlice(s, start, stop) == []
  {
  }

  /** `s[start:]` in Python. */
  function PySliceFrom<T>(s: seq<T>, start: int): (r: seq<T>)
    ensures |r| <= |s|
    ensures 0 <= start <= |s| ==> r == s[start..]
    ensures |s| <= start ==> r == []
  {
    s[SliceBound(start, |s|)..]
  }

  /** A negative start counts from the end: `xs[-k:]` is the last `k`
      entries, and the whole list once `k` exceeds its length. */
  lemma PySliceFromNegative<T>(s: seq<T>, start: int)
    requires start < 0
    ensures 0 <= start + |s| ==> PySliceFrom(s, start) == s[start + |s|..]
    ensures start + |s| < 0 ==> PySliceFrom(s, start) == s
  {
  }
}
