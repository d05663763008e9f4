/** The parts of Go's `strings`, `strconv`, `path/filepath` and `encoding/hex`
    behaviour that the service's decisions depend on, over `seq<char>`.
    Each function states the property the Go library documents for it, and
    the parsers are paired with the printers they invert. */
module GoStrings {
  import opened Wrappers

  type byte = x: int | 0 <= x < 256

  const MinInt64: int := -0x8000_0000_0000_0000
  const MaxInt64: int := 0x7FFF_FFFF_FFFF_FFFF
  const MaxUint64: int := 0xFFFF_FFFF_FFFF_FFFF

  /** Go's 64-bit `int` arithmetic: the mathematical result taken modulo
      2^64 into the range of int64. */
  function Wrap64(x: int): (r: int)
    ensures MinInt64 <= r <= MaxInt64
    ensures (r - x) % (MaxUint64 + 1) == 0
    ensures MinInt64 <= x <= MaxInt64 ==> r == x
  {
    (x - MinInt64) % (MaxUint64 + 1) + MinInt64
  }

  /** errors.Join: no error when every argument is nil, otherwise the
      texts of the non-nil ones in order, one per line. */
  function JoinErrors(es: seq<Option<string>>): (r: Option<string>)
    ensures r.None? <==> forall i :: 0 <= i < |es| ==> es[i].None?
    ensures |es| > 0 && es[0].Some? && r.Some? ==> HasPrefix(r.value, es[0].value)
  {
    if es == [] then None
    else
      var rest := JoinErrors(es[1..]);
      assert forall i :: 1 <= i < |es| ==> es[i] == es[1..][i - 1];
      match es[0]
      case None => rest
      case Some(e) => if rest.None? then Some(e) else Some(e + "\n" + rest.value)
  }

  /** Two errors joined: none when both are nil, otherwise the first's text
      when the second is nil. */
  lemma JoinTwoErrors(a: Option<string>, b: Option<string>)
    ensures JoinErrors([a, b]).None? <==> a.None? && b.None?
    ensures b.None? ==> JoinErrors([a, b]) == a
  {
    assert [a, b][1..] == [b];
    assert [b][1..] == [];
  }

  // ---------------------------------------------------------------------
  // Whitespace (unicode.IsSpace), TrimSpace, Fields, Join

  /** unicode.IsSpace: the Latin-1 spaces and the other White_Space runes. */
  predicate IsSpace(c: char) {
    var n := c as int;
    n == 9 || n == 10 || n == 11 || n == 12 || n == 13 || n == 32 ||
    n == 0x85 || n == 0xA0 || n == 0x1680 || (0x2000 <= n <= 0x200A) ||
    n == 0x2028 || n == 0x2029 || n == 0x202F || n == 0x205F || n == 0x3000
  }

  predicate NoSpace(s: string) {
    forall i :: 0 <= i < |s| ==> !IsSpace(s[i])
  }

  predicate AllSpace(s: string) {
    forall i :: 0 <= i < |s| ==> IsSpace(s[i])
  }

  /** Drops the leading white space of `s`. */
  function TrimLeftSpace(s: string): (r: string)
    ensures |r| <= |s|
  {
    if |s| > 0 && IsSpace(s[0]) then TrimLeftSpace(s[1..]) else s
  }

  /** TrimLeftSpace removes a prefix that is all white space, and what
      remains does not start with white space. */
  lemma {:induction false} TrimLeftSpaceSpec(s: string)
    ensures var r := TrimLeftSpace(s);
            r == s[|s| - |r|..] && (r == [] || !IsSpace(r[0])) && AllSpace(s[..|s| - |r|])
    decreases |s|
  {
    if |s| > 0 && IsSpace(s[0]) {
      TrimLeftSpaceSpec(s[1..]);
      var r := TrimLeftSpace(s);
      assert s[1..][|s| - 1 - |r|..] == s[|s| - |r|..];
      assert forall i :: 0 < i < |s| - |r| ==> s[i] == s[1..][..|s| - 1 - |r|][i - 1];
    } else {
      assert s[..0] == [];
    }
  }

  /** Drops the trailing white space of `s`. */
  function TrimRightSpace(s: string): (r: string)
    ensures |r| <= |s|
  {
    if |s| > 0 && IsSpace(s[|s| - 1]) then TrimRightSpace(s[..|s| - 1]) else s
  }

  /** TrimRightSpace removes a suffix that is all white space, and what
      remains does not end with white space. */
  lemma {:induction false} TrimRightSpaceSpec(s: string)
    ensures var r := TrimRightSpace(s);
            r == s[..|r|] && (r == [] || !IsSpace(r[|r| - 1])) && AllSpace(s[|r|..])
    decreases |s|
  {
    if |s| > 0 && IsSpace(s[|s| - 1]) {
      var t := s[..|s| - 1];
      TrimRightSpaceSpec(t);
      var r := TrimRightSpace(s);
      assert t[..|r|] == s[..|r|];
      assert forall i :: |r| <= i < |s| - 1 ==> s[i] == t[|r|..][i - |r|];
    } else {
      assert s[|s|..] == [];
    }
  }

  /** strings.TrimSpace: `s` without its leading and trailing white space. */
  function TrimSpace(s: string): (r: string)
    ensures |r| <= |s|
  {
    TrimRightSpace(TrimLeftSpace(s))
  }

  /** TrimSpace removes white space from both ends and no more: the result
      is a slice of `s` with white space only around it. */
  lemma TrimSpaceSpec(s: string)
    ensures var r := TrimSpace(s);
            exists a :: 0 <= a && a + |r| <= |s| && r == s[a..a + |r|] && AllSpace(s[..a]) && AllSpace(s[a + |r|..])
  {
    var l := TrimLeftSpace(s);
    TrimLeftSpaceSpec(s);
    TrimRightSpaceSpec(l);
    var r := TrimRightSpace(l);
    var a := |s| - |l|;
    assert l == s[a..];
    assert r == l[..|r|];
    assert s[a..][..|r|] == s[a..a + |r|];
    assert s[a..][|r|..] == s[a + |r|..];
    assert AllSpace(s[..a]) && AllSpace(s[a + |r|..]);
  }

  /** The result of TrimSpace neither starts nor ends with white space. */
  lemma TrimSpaceEnds(s: string)
    ensures var r := TrimSpace(s);
            r == [] || (!IsSpace(r[0]) && !IsSpace(r[|r| - 1]))
  {
    var l := TrimLeftSpace(s);
    TrimLeftSpaceSpec(s);
    TrimRightSpaceSpec(l);
    var r := TrimRightSpace(l);
    if r != [] {
      assert r[0] == l[0];
    }
  }

  /** TrimSpace yields the empty string exactly when `s` is all white space. */
  lemma TrimSpaceEmptyIff(s: string)
    ensures TrimSpace(s) == [] <==> AllSpace(s)
  {
    var l := TrimLeftSpace(s);
    TrimLeftSpaceSpec(s);
    TrimRightSpaceSpec(l);
    if TrimSpace(s) == [] {
      assert AllSpace(l[0..]);
      assert l == [];
      forall i | 0 <= i < |s| ensures IsSpace(s[i]) {
        assert s[i] == s[..|s|][i];
      }
    }
  }

  /** A string without white space is its own TrimSpace. */
  lemma TrimSpaceOfNoSpace(s: string)
    requires NoSpace(s)
    ensures TrimSpace(s) == s
  {
  }

  /** The longest prefix of `s` without white space. */
  function WordPrefix(s: string): (r: string)
    ensures |r| <= |s| && r == s[..|r|] && NoSpace(r)
    ensures |r| == |s| || IsSpace(s[|r|])
  {
    if |s| == 0 || IsSpace(s[0]) then [] else [s[0]] + WordPrefix(s[1..])
  }

  /** strings.Fields: the maximal runs of non-space characters of `s`. */
  function Fields(s: string): (r: seq<string>)
    ensures forall f :: f in r ==> |f| > 0 && NoSpace(f)
    decreases |s|
  {
    var t := TrimLeftSpace(s);
    if t == [] then [] else
      var w := WordPrefix(t);
      assert |w| > 0 by { TrimLeftSpaceSpec(s); assert !IsSpace(t[0]); }
      var rest := Fields(t[|w|..]);
      [w] + rest
  }

  /** strings.Join. */
  function Join(parts: seq<string>, sep: string): (r: string)
    ensures |parts| == 1 ==> r == parts[0]
    ensures |parts| == 0 ==> r == []
  {
    if |parts| == 0 then []
    else if |parts| == 1 then parts[0]
    else parts[0] + sep + Join(parts[1..], sep)
  }

  /** A non-empty string without white space is its own single field. */
  lemma {:induction false} FieldsOfWord(s: string)
    requires |s| > 0 && NoSpace(s)
    ensures Fields(s) == [s]
  {
    assert TrimLeftSpace(s) == s;
    WordPrefixOfWord(s);
    assert s[|s|..] == [];
  }

  lemma {:induction false} WordPrefixOfWord(s: string)
    requires NoSpace(s)
    ensures WordPrefix(s) == s
    decreases |s|
  {
    if |s| > 0 {
      WordPrefixOfWord(s[1..]);
    }
  }

  /** Dropping leading white space first changes nothing. */
  lemma {:induction false} TrimLeftAfterSpace(sp: string, s: string)
    requires AllSpace(sp)
    ensures TrimLeftSpace(sp + s) == TrimLeftSpace(s)
    decreases |sp|
  {
    if |sp| > 0 {
      assert (sp + s)[0] == sp[0];
      assert (sp + s)[1..] == sp[1..] + s;
      TrimLeftAfterSpace(sp[1..], s);
    } else {
      assert sp + s == s;
    }
  }

  /** The word at the start of `w + s` is `w` when `s` is empty or starts
      with white space. */
  lemma {:induction false} WordPrefixBefore(w: string, s: string)
    requires NoSpace(w)
    requires s == [] || IsSpace(s[0])
    ensures WordPrefix(w + s) == w
    decreases |w|
  {
    if |w| > 0 {
      assert (w + s)[0] == w[0];
      assert (w + s)[1..] == w[1..] + s;
      WordPrefixBefore(w[1..], s);
      assert w == [w[0]] + w[1..];
    } else {
      assert w + s == s;
    }
  }

  /** Leading white space adds no field. */
  lemma FieldsLeadingSpace(sp: string, s: string)
    requires AllSpace(sp)
    ensures Fields(sp + s) == Fields(s)
  {
    TrimLeftAfterSpace(sp, s);
  }

  /** A word followed by white space (or by nothing) is the first field,
      and the fields of the rest follow it: fields are the maximal runs of
      characters other than white space, in order. */
  lemma FieldsWord(w: string, s: string)
    requires |w| > 0 && NoSpace(w)
    requires s == [] || IsSpace(s[0])
    ensures Fields(w + s) == [w] + Fields(s)
  {
    var t := w + s;
    assert t[0] == w[0];
    assert TrimLeftSpace(t) == t;
    WordPrefixBefore(w, s);
    assert t[|w|..] == s;
  }

  /** Trailing white space adds no field. */
  lemma {:induction false} FieldsTrailingSpace(s: string, sp: string)
    requires AllSpace(sp)
    ensures Fields(s + sp) == Fields(s)
    decreases |s|, 1
  {
    var t := TrimLeftSpace(s);
    TrimLeftSpaceSpec(s);
    var a := |s| - |t|;
    assert s == s[..a] + t;
    assert s + sp == s[..a] + (t + sp);
    FieldsLeadingSpace(s[..a], t + sp);
    FieldsLeadingSpace(s[..a], t);
    FieldsTrailingSpaceTrimmed(t, sp);
  }

  lemma {:induction false} FieldsTrailingSpaceTrimmed(t: string, sp: string)
    requires AllSpace(sp)
    requires t == [] || !IsSpace(t[0])
    ensures Fields(t + sp) == Fields(t)
    decreases |t|, 0
  {
    if t == [] {
      assert t + sp == sp + [];
      FieldsLeadingSpace(sp, []);
    } else {
      var w := WordPrefix(t);
      var rest := t[|w|..];
      assert t == w + rest;
      assert t + sp == w + (rest + sp);
      FieldsWord(w, rest);
      FieldsWord(w, rest + sp);
      FieldsTrailingSpace(rest, sp);
    }
  }

  /** There are no fields exactly when `s` is all white space. */
  lemma FieldsEmptyIff(s: string)
    ensures Fields(s) == [] <==> AllSpace(s)
  {
    var t := TrimLeftSpace(s);
    TrimLeftSpaceSpec(s);
    if t == [] {
      assert s[..|s|] == s;
    } else {
      assert t[0] == s[|s| - |t|];
    }
  }

  /** Trimming white space first changes no field. */
  lemma FieldsOfTrimSpace(s: string)
    ensures Fields(TrimSpace(s)) == Fields(s)
  {
    FieldsOfTrimLeft(s);
    FieldsOfTrimRight(TrimLeftSpace(s));
  }

  lemma FieldsOfTrimLeft(s: string)
    ensures Fields(TrimLeftSpace(s)) == Fields(s)
  {
    var l := TrimLeftSpace(s);
    TrimLeftSpaceSpec(s);
    var a := |s| - |l|;
    assert s == s[..a] + l;
    FieldsLeadingSpace(s[..a], l);
  }

  lemma FieldsOfTrimRight(l: string)
    ensures Fields(TrimRightSpace(l)) == Fields(l)
  {
    TrimRightSpaceSpec(l);
    var r := TrimRightSpace(l);
    assert l == r + l[|r|..];
    FieldsTrailingSpace(r, l[|r|..]);
  }

  /** Joining space-free parts with a space-free separator leaves no space. */
  lemma {:induction false} JoinNoSpace(parts: seq<string>, sep: string)
    requires forall i :: 0 <= i < |parts| ==> NoSpace(parts[i])
    requires NoSpace(sep)
    ensures NoSpace(Join(parts, sep))
  {
    if |parts| > 1 {
      JoinNoSpace(parts[1..], sep);
      var rest := Join(parts[1..], sep);
      var r := parts[0] + sep + rest;
      forall i | 0 <= i < |r| ensures !IsSpace(r[i]) {
        if i < |parts[0]| {
          assert r[i] == parts[0][i];
        } else if i < |parts[0]| + |sep| {
          assert r[i] == sep[i - |parts[0]|];
        } else {
          assert r[i] == rest[i - |parts[0]| - |sep|];
        }
      }
    }
  }

  // ---------------------------------------------------------------------
  // Prefixes, suffixes, file extensions

  predicate HasPrefix(s: string, p: string) {
    |p| <= |s| && s[..|p|] == p
  }

  predicate HasSuffix(s: string, suf: string) {
    |suf| <= |s| && s[|s| - |suf|..] == suf
  }

  /** strings.TrimPrefix. */
  function TrimPrefix(s: string, p: string): (r: string)
    ensures HasPrefix(s, p) ==> p + r == s
    ensures !HasPrefix(s, p) ==> r == s
  {
    if HasPrefix(s, p) then s[|p|..] else s
  }

  /** strings.TrimSuffix. */
  function TrimSuffix(s: string, suf: string): (r: string)
    ensures HasSuffix(s, suf) ==> r + suf == s
    ensures !HasSuffix(s, suf) ==> r == s
  {
    if HasSuffix(s, suf) then s[..|s| - |suf|] else s
  }

  /** filepath.Ext: the suffix of the last path element that starts at its
      last '.', or "" when that element has no '.'. */
  function Ext(path: string): (r: string)
    ensures r == [] || (r[0] == '.' && HasSuffix(path, r))
    ensures forall i :: 0 <= i < |r| ==> r[i] != '/'
    ensures forall i :: 1 <= i < |r| ==> r[i] != '.'
  {
    var r := ExtFrom(path, |path|);
    assert forall i :: 0 <= i < |r| ==> r[i] == path[|path| - |r| + i];
    r
  }

  /** The extension is empty exactly when every '.' of the path is
      followed by a '/', that is when the last element has no '.'. */
  lemma ExtEmptyIff(path: string)
    ensures Ext(path) == [] <==> forall k :: 0 <= k < |path| && path[k] == '.' ==> '/' in path[k..]
  {
    var r := Ext(path);
    if r == [] {
      ExtFromEmpty(path, |path|);
      forall k | 0 <= k < |path| && path[k] == '.' ensures '/' in path[k..] {
        assert path[k..|path|] == path[k..];
      }
    } else {
      var k := |path| - |r|;
      assert path[k] == r[0] == '.';
      assert path[k..] == r;
      assert '/' !in path[k..];
    }
  }

  lemma {:induction false} ExtFromEmpty(path: string, i: nat)
    requires i <= |path| && ExtFrom(path, i) == []
    ensures forall k :: 0 <= k < i && path[k] == '.' ==> '/' in path[k..i]
    decreases i
  {
    if i > 0 {
      if path[i - 1] == '/' {
        SlashEnds(path, i);
      } else {
        ExtFromEmpty(path, i - 1);
        SlashExtends(path, i);
      }
    }
  }

  lemma SlashEnds(path: string, i: nat)
    requires 0 < i <= |path| && path[i - 1] == '/'
    ensures forall k :: 0 <= k < i ==> '/' in path[k..i]
  {
    forall k | 0 <= k < i ensures '/' in path[k..i] {
      assert path[k..i][i - 1 - k] == '/';
    }
  }

  lemma SlashExtends(path: string, i: nat)
    requires 0 < i <= |path|
    requires forall k :: 0 <= k < i - 1 && path[k] == '.' ==> '/' in path[k..i - 1]
    requires path[i - 1] != '.'
    ensures forall k :: 0 <= k < i && path[k] == '.' ==> '/' in path[k..i]
  {
    forall k | 0 <= k < i && path[k] == '.' ensures '/' in path[k..i] {
      assert path[k..i] == path[k..i - 1] + [path[i - 1]];
    }
  }

  /** The extension found scanning `path[..i]` backwards. */
  function ExtFrom(path: string, i: nat): (r: string)
    requires i <= |path|
    ensures r == [] || (r[0] == '.' && |path| - i < |r| <= |path| && r == path[|path| - |r|..])
    ensures r != [] ==> forall k :: |path| - |r| < k < i ==> path[k] != '.' && path[k] != '/'
    decreases i
  {
    if i == 0 then []
    else if path[i - 1] == '/' then []
    else if path[i - 1] == '.' then path[i - 1..]
    else ExtFrom(path, i - 1)
  }

  /** The extension of `base + ext` is `ext` when `ext` is '.' followed by
      characters other than '.' and '/'. */
  lemma ExtOfSuffix(base: string, ext: string)
    requires |ext| >= 1 && ext[0] == '.'
    requires forall k :: 1 <= k < |ext| ==> ext[k] != '.' && ext[k] != '/'
    ensures Ext(base + ext) == ext
  {
    var p := base + ext;
    ExtFromSkip(p, |p|, |base| + 1);
    assert p[|base|] == '.';
    assert p[|base|..] == ext;
  }

  /** Scanning backwards over characters other than '.' and '/' changes
      nothing. */
  lemma {:induction false} ExtFromSkip(p: string, j: nat, stop: nat)
    requires stop <= j <= |p|
    requires forall k :: stop <= k < j ==> p[k] != '.' && p[k] != '/'
    ensures ExtFrom(p, j) == ExtFrom(p, stop)
    decreases j
  {
    if j > stop {
      assert p[j - 1] != '.' && p[j - 1] != '/';
      assert ExtFrom(p, j) == ExtFrom(p, j - 1);
      ExtFromSkip(p, j - 1, stop);
    }
  }

  // ---------------------------------------------------------------------
  // Decimal numbers: strconv.Itoa, strconv.Atoi, strconv.ParseUint

  predicate IsDigit(c: char) { '0' <= c <= '9' }

  predicate AllDigits(s: string) {
    forall i :: 0 <= i < |s| ==> IsDigit(s[i])
  }

  function DigitChar(d: nat): (c: char)
    requires d < 10
    ensures IsDigit(c) && (c as int) - ('0' as int) == d
  {
    (('0' as int) + d) as char
  }

  /** The value of a string of decimal digits. */
  function DecimalValue(s: string): (v: nat)
    requires AllDigits(s)
    decreases |s|
  {
    if |s| == 0 then 0
    else 10 * DecimalValue(s[..|s| - 1]) + ((s[|s| - 1] as int) - ('0' as int))
  }

  /** strconv.Itoa of a non-negative number: its shortest decimal digits. */
  function NatToDecimal(n: nat): (r: string)
    ensures |r| >= 1 && AllDigits(r)
    ensures |r| > 1 ==> r[0] != '0'
    decreases n
  {
    if n < 10 then [DigitChar(n)] else NatToDecimal(n / 10) + [DigitChar(n % 10)]
  }

  /** strconv.Itoa. */
  function Itoa(n: int): (r: string)
    ensures |r| >= 1
    ensures n < 0 <==> r[0] == '-'
  {
    if n < 0 then "-" + NatToDecimal(-n) else NatToDecimal(n)
  }

  /** Reading the digits printed for `n` gives `n` back. */
  lemma {:induction false} DecimalRoundTrip(n: nat)
    ensures DecimalValue(NatToDecimal(n)) == n
    decreases n
  {
    if n >= 10 {
      DecimalRoundTrip(n / 10);
      var s := NatToDecimal(n);
      assert s[..|s| - 1] == NatToDecimal(n / 10);
    }
  }

  /** strconv.Atoi for a 64-bit int: an optional sign, then at least one
      decimal digit, and the value must fit in an int64. */
  function Atoi(s: string): (r: Result<int, string>)
    ensures r.Ok? ==> MinInt64 <= r.value <= MaxInt64
    ensures r.Ok? ==> |s| > 0
    ensures |s| > 0 && AllDigits(s) && DecimalValue(s) <= MaxInt64 ==> r == Ok(DecimalValue(s))
    ensures |s| > 0 && !IsDigit(s[0]) && s[0] != '+' && s[0] != '-' ==> r.Err?
  {
    if |s| == 0 then Err("invalid syntax")
    else
      var neg := s[0] == '-';
      var digits := if s[0] == '+' || s[0] == '-' then s[1..] else s;
      if |digits| == 0 || !AllDigits(digits) then Err("invalid syntax")
      else
        var d: int := DecimalValue(digits);
        var v := if neg then -d else d;
        if v < MinInt64 || v > MaxInt64 then Err("value out of range") else Ok(v)
  }

  /** Atoi reads back what Itoa prints, for every int64. */
  lemma AtoiItoa(n: int)
    requires MinInt64 <= n <= MaxInt64
    ensures Atoi(Itoa(n)) == Ok(n)
  {
    if n < 0 {
      AtoiNegative(-n);
    } else {
      var d := NatToDecimal(n);
      DecimalRoundTrip(n);
      assert Itoa(n) == d && IsDigit(d[0]);
    }
  }

  /** Atoi reads "-" and the digits of `m` as -m. */
  lemma AtoiNegative(m: nat)
    requires 0 < m <= -MinInt64
    ensures Atoi("-" + NatToDecimal(m)) == Ok(-(m as int))
  {
    var d := NatToDecimal(m);
    DecimalRoundTrip(m);
    assert ("-" + d)[0] == '-' && ("-" + d)[1..] == d;
  }

  /** strconv.ParseUint(s, 10, 64): at least one decimal digit, no sign, and
      the value must fit in 64 bits. */
  function ParseUint64(s: string): (r: Result<nat, string>)
    ensures r.Ok? <==> |s| > 0 && AllDigits(s) && DecimalValue(s) <= MaxUint64
    ensures r.Ok? ==> r.value == DecimalValue(s)
  {
    if |s| == 0 || !AllDigits(s) then Err("invalid syntax")
    else if DecimalValue(s) > MaxUint64 then Err("value out of range")
    else Ok(DecimalValue(s))
  }

  // ---------------------------------------------------------------------
  // Hexadecimal digits: fmt's %x (lower case) and hex digit reading

  /** The value of a hexadecimal digit of either case. */
  function HexDigitValue(c: char): (r: Option<nat>)
    ensures r.Some? ==> r.value < 16
    ensures r.Some? <==> ('0' <= c <= '9' || 'a' <= c <= 'f' || 'A' <= c <= 'F')
  {
    if '0' <= c <= '9' then Some((c as int) - ('0' as int))
    else if 'a' <= c <= 'f' then Some((c as int) - ('a' as int) + 10)
    else if 'A' <= c <= 'F' then Some((c as int) - ('A' as int) + 10)
    else None
  }

  /** The lower-case hexadecimal digit for `d`. */
  function LowerHexDigit(d: nat): (c: char)
    requires d < 16
    ensures HexDigitValue(c) == Some(d)
    ensures !('A' <= c <= 'Z')
  {
    if d < 10 then (('0' as int) + d) as char else (('a' as int) + d - 10) as char
  }

  /** fmt's "%02x" of a byte. */
  function LowerHex2(b: byte): (r: string)
    ensures |r| == 2
    ensures HexDigitValue(r[0]).Some? && HexDigitValue(r[1]).Some?
    ensures 16 * HexDigitValue(r[0]).value + HexDigitValue(r[1]).value == b
  {
    [LowerHexDigit(b / 16), LowerHexDigit(b % 16)]
  }

  /** fmt's "%x" of a byte string: two lower-case digits per byte. */
  function LowerHex(bs: seq<byte>): (r: string)
    ensures |r| == 2 * |bs|
  {
    if |bs| == 0 then [] else LowerHex2(bs[0]) + LowerHex(bs[1..])
  }

  /** Reads pairs of hexadecimal digits back into bytes. */
  function ParseHexPairs(s: string): (r: Option<seq<byte>>)
    ensures r.Some? ==> |r.value| * 2 == |s|
    decreases |s|
  {
    if |s| == 0 then Some([])
    else if |s| == 1 then None
    else
      match (HexDigitValue(s[0]), HexDigitValue(s[1]))
      case (Some(hi), Some(lo)) =>
        (match ParseHexPairs(s[2..])
         case Some(rest) => Some([(16 * hi + lo) as byte] + rest)
         case None => None)
      case _ => None
  }

  /** Hex encoding is inverted by reading the pairs back. */
  lemma {:induction false} HexRoundTrip(bs: seq<byte>)
    ensures ParseHexPairs(LowerHex(bs)) == Some(bs)
  {
    if |bs| > 0 {
      HexRoundTrip(bs[1..]);
      var s := LowerHex(bs);
      assert s[2..] == LowerHex(bs[1..]);
      assert s[0] == LowerHexDigit(bs[0] / 16) && s[1] == LowerHexDigit(bs[0] % 16);
      assert (16 * (bs[0] / 16) + bs[0] % 16) as byte == bs[0];
      assert [bs[0]] + bs[1..] == bs;
    }
  }

  // ---------------------------------------------------------------------
  // fmt.Sscanf with "%<w>x" verbs into byte variables

  predicate AllHex(s: string) {
    forall i :: 0 <= i < |s| ==> HexDigitValue(s[i]).Some?
  }

  function Pow16(n: nat): (r: nat)
    ensures r >= 1
  {
    if n == 0 then 1 else 16 * Pow16(n - 1)
  }

  /** The value of a string of hexadecimal digits. */
  function HexValue(s: string): (v: nat)
    requires AllHex(s)
    decreases |s|
  {
    if |s| == 0 then 0
    else 16 * HexValue(s[..|s| - 1]) + HexDigitValue(s[|s| - 1]).value
  }

  lemma {:induction false} HexValueBound(s: string)
    requires AllHex(s)
    ensures HexValue(s) < Pow16(|s|)
    decreases |s|
  {
    if |s| > 0 {
      HexValueBound(s[..|s| - 1]);
    }
  }

  /** The white-space skipping that fmt's scanner does before a number,
      within the verb's width: the position of the first rune that is not
      white space (or `limit`); a newline is an error, since Sscanf does not
      treat newlines as space. */
  function SkipSpace(p: string, pos: nat, limit: nat): (r: Result<nat, string>)
    requires pos <= limit <= |p|
    ensures r.Ok? ==> pos <= r.value <= limit && (r.value == limit || !IsSpace(p[r.value]))
    ensures r.Ok? ==> forall k :: pos <= k < r.value ==> IsSpace(p[k])
    decreases limit - pos
  {
    if pos == limit then Ok(pos)
    else if p[pos] == '\n' then Err("unexpected newline")
    else if IsSpace(p[pos]) then SkipSpace(p, pos + 1, limit)
    else Ok(pos)
  }

  /** The skip fails exactly when a newline follows nothing but white space
      within the width. */
  lemma {:induction false} SkipSpaceErr(p: string, pos: nat, limit: nat)
    requires pos <= limit <= |p|
    ensures SkipSpace(p, pos, limit).Err? <==> exists k :: pos <= k < limit && p[k] == '\n' && AllSpace(p[pos..k])
    decreases limit - pos
  {
    if pos == limit {
    } else if p[pos] == '\n' {
      assert p[pos..pos] == [];
    } else if IsSpace(p[pos]) {
      SkipSpaceErr(p, pos + 1, limit);
      if SkipSpace(p, pos, limit).Err? {
        var k :| pos + 1 <= k < limit && p[k] == '\n' && AllSpace(p[pos + 1..k]);
        assert p[pos..k] == [p[pos]] + p[pos + 1..k];
      }
      if k :| pos <= k < limit && p[k] == '\n' && AllSpace(p[pos..k]) {
        assert k != pos;
        assert AllSpace(p[pos + 1..k]) by {
          var q, q1 := p[pos..k], p[pos + 1..k];
          forall j | 0 <= j < |q1| ensures IsSpace(q1[j]) {
            assert q1[j] == q[j + 1];
          }
        }
      }
    } else {
      forall k | pos <= k < limit && p[k] == '\n' ensures !AllSpace(p[pos..k]) {
        assert k != pos;
        assert p[pos..k][0] == p[pos];
      }
    }
  }

  /** The number of bytes of the UTF-8 encoding of a rune. */
  function RuneLen(c: char): (n: nat)
    ensures 1 <= n <= 4
    ensures n == 1 <==> (c as int) < 0x80
  {
    if (c as int) < 0x80 then 1
    else if (c as int) < 0x800 then 2
    else if (c as int) < 0x10000 then 3
    else 4
  }

  /** len of a Go string: the length of its UTF-8 encoding in bytes. */
  function Utf8Len(s: string): (n: nat)
    ensures |s| <= n <= 4 * |s|
  {
    if s == [] then 0 else RuneLen(s[0]) + Utf8Len(s[1..])
  }

  predicate IsAscii(s: string) {
    forall i :: 0 <= i < |s| ==> (s[i] as int) < 0x80
  }

  /** A string has as many bytes as runes exactly when it is all ASCII. */
  lemma {:induction false} Utf8LenAscii(s: string)
    ensures Utf8Len(s) == |s| <==> IsAscii(s)
  {
    if s != [] {
      Utf8LenAscii(s[1..]);
      assert forall i :: 1 <= i < |s| ==> s[i] == s[1..][i - 1];
      if IsAscii(s) {
        assert IsAscii(s[1..]) by {
          forall i | 0 <= i < |s[1..]| ensures (s[1..][i] as int) < 0x80 {
            assert s[1..][i] == s[i + 1];
          }
        }
      }
    }
  }

  /** Hexadecimal digits are ASCII. */
  lemma AllHexAscii(s: string)
    requires AllHex(s)
    ensures IsAscii(s) && Utf8Len(s) == |s|
  {
    forall i | 0 <= i < |s| ensures (s[i] as int) < 0x80 {
      assert HexDigitValue(s[i]).Some?;
    }
    Utf8LenAscii(s);
  }

  /** A rune that fmt's scanner takes into the token of a "%x" verb: a
      hexadecimal digit or '_'. strconv.ParseUint, which then reads the
      token in base 16, rejects the '_'. */
  predicate IsHexTokenChar(c: char) {
    HexDigitValue(c).Some? || c == '_'
  }

  /** White space ends a token. */
  lemma SpaceEndsToken(c: char)
    requires IsSpace(c)
    ensures !IsHexTokenChar(c)
  {
  }

  /** The end of the token starting at `pos`, within `limit`. */
  function HexTokenEnd(p: string, pos: nat, limit: nat): (e: nat)
    requires pos <= limit <= |p|
    ensures pos <= e <= limit
    ensures forall k :: pos <= k < e ==> IsHexTokenChar(p[k])
    ensures e == limit || !IsHexTokenChar(p[e])
    decreases limit - pos
  {
    if pos < limit && IsHexTokenChar(p[pos]) then HexTokenEnd(p, pos + 1, limit) else pos
  }

  /** One "%<w>x" verb of fmt.Sscanf, starting at rune `pos` of `p`:
      leading white space is skipped first, then the token is read. Yields
      the value and the position after the token. */
  function ScanHex(p: string, pos: nat, w: nat): (r: Result<(nat, nat), string>)
    requires pos <= |p|
    ensures r.Ok? ==> pos < r.value.1 <= |p|
    ensures r.Ok? ==> r.value.0 < Pow16(w)
    ensures r.Ok? ==> exists start :: pos <= start < r.value.1 <= start + w && AllHex(p[start..r.value.1]) &&
                                      r.value.0 == HexValue(p[start..r.value.1])
  {
    match SkipSpace(p, pos, |p|)
    case Err(e) => Err(e)
    case Ok(start) => ScanToken(p, start, w)
  }

  /** The token of a verb, from rune `start`: at most `w` runes are read;
      at least one digit is needed, the token runs as far as the width and
      the digits allow, and a token holding '_' is a syntax error. */
  function ScanToken(p: string, start: nat, w: nat): (r: Result<(nat, nat), string>)
    requires start <= |p|
    ensures r.Ok? ==> start < r.value.1 <= |p| && r.value.1 <= start + w
    ensures r.Ok? ==> AllHex(p[start..r.value.1]) && r.value.0 == HexValue(p[start..r.value.1])
    ensures r.Ok? ==> r.value.0 < Pow16(w)
  {
    var limit := if start + w <= |p| then start + w else |p|;
    if start == limit then Err("unexpected EOF")
    else if !IsHexTokenChar(p[start]) then Err("expected integer")
    else
      var end := HexTokenEnd(p, start, limit);
      var tok := p[start..end];
      if !AllHex(tok) then Err("strconv.ParseUint: parsing \"" + tok + "\": invalid syntax")
      else
        HexValueBound(tok);
        Pow16Monotone(|tok|, w);
        Ok((HexValue(tok), end))
  }

  lemma {:induction false} Pow16Monotone(a: nat, b: nat)
    requires a <= b
    ensures Pow16(a) <= Pow16(b)
    decreases b
  {
    if a < b {
      Pow16Monotone(a, b - 1);
    }
  }

  /** fmt.Sscanf(p, "%<w>x%<w>x%<w>x", &r, &g, &b); input left over after
      the third verb is not an error. */
  function Scan3Hex(p: string, w: nat): (r: Result<(nat, nat, nat), string>)
    ensures r.Ok? ==> r.value.0 < Pow16(w) && r.value.1 < Pow16(w) && r.value.2 < Pow16(w)
  {
    match ScanHex(p, 0, w)
    case Err(e) => Err(e)
    case Ok((a, i)) =>
      match ScanHex(p, i, w)
      case Err(e) => Err(e)
      case Ok((b, j)) =>
        match ScanHex(p, j, w)
        case Err(e) => Err(e)
        case Ok((c, _)) => Ok((a, b, c))
  }

  /** On a run of at least `w` hexadecimal digits a verb reads exactly `w`
      of them. */
  lemma ScanHexOnDigits(p: string, pos: nat, w: nat, end: nat)
    requires 1 <= w && end == pos + w && end <= |p|
    requires AllHex(p[pos..end])
    ensures ScanHex(p, pos, w) == Ok((HexValue(p[pos..end]), end))
  {
    forall k | pos <= k < end ensures HexDigitValue(p[k]).Some? {
      assert p[pos..end][k - pos] == p[k];
    }
    ScanHexRun(p, pos, w, pos, end);
  }

  /** A verb that skips the spaces before `start` and reads the digits up
      to `end`, where the width, the end of the text or a rune outside the
      token stops it. */
  lemma ScanHexRun(p: string, pos: nat, w: nat, start: nat, end: nat)
    requires pos <= start < end <= |p| && end <= start + w
    requires forall k :: pos <= k < start ==> IsSpace(p[k]) && p[k] != '\n'
    requires forall k :: start <= k < end ==> HexDigitValue(p[k]).Some?
    requires end == start + w || end == |p| || !IsHexTokenChar(p[end])
    ensures AllHex(p[start..end])
    ensures ScanHex(p, pos, w) == Ok((HexValue(p[start..end]), end))
  {
    SkipSpaceTo(p, pos, |p|, start);
    ScanTokenRun(p, w, start, end);
  }

  lemma ScanTokenRun(p: string, w: nat, start: nat, end: nat)
    requires start < end <= |p| && end <= start + w
    requires forall k :: start <= k < end ==> HexDigitValue(p[k]).Some?
    requires end == start + w || end == |p| || !IsHexTokenChar(p[end])
    ensures AllHex(p[start..end])
    ensures ScanToken(p, start, w) == Ok((HexValue(p[start..end]), end))
  {
    var limit := if start + w <= |p| then start + w else |p|;
    HexTokenTo(p, start, limit, end);
    forall k | 0 <= k < end - start ensures HexDigitValue(p[start..end][k]).Some? {
      assert p[start..end][k] == p[start + k];
    }
  }

  /** A verb whose token, inside the width, holds a '_' after its first
      rune fails with strconv's syntax error. */
  lemma ScanHexUnderscore(p: string, pos: nat, w: nat, start: nat, end: nat)
    requires pos <= start < end <= |p| && end <= start + w
    requires forall k :: pos <= k < start ==> IsSpace(p[k]) && p[k] != '\n'
    requires forall k :: start <= k < end ==> IsHexTokenChar(p[k])
    requires HexDigitValue(p[start]).Some? && p[end - 1] == '_'
    requires end == start + w || end == |p| || !IsHexTokenChar(p[end])
    ensures ScanHex(p, pos, w) == Err("strconv.ParseUint: parsing \"" + p[start..end] + "\": invalid syntax")
  {
    SkipSpaceTo(p, pos, |p|, start);
    var limit := if start + w <= |p| then start + w else |p|;
    HexTokenTo(p, start, limit, end);
    assert !AllHex(p[start..end]) by {
      assert p[start..end][end - 1 - start] == '_';
    }
  }

  lemma {:induction false} SkipSpaceTo(p: string, pos: nat, limit: nat, start: nat)
    requires pos <= start <= limit <= |p|
    requires forall k :: pos <= k < start ==> IsSpace(p[k]) && p[k] != '\n'
    requires start == limit || !IsSpace(p[start])
    ensures SkipSpace(p, pos, limit) == Ok(start)
    decreases start - pos
  {
    if pos < start {
      SkipSpaceTo(p, pos + 1, limit, start);
    }
  }

  lemma {:induction false} HexTokenTo(p: string, pos: nat, limit: nat, end: nat)
    requires pos <= end <= limit <= |p|
    requires forall k :: pos <= k < end ==> IsHexTokenChar(p[k])
    requires end == limit || !IsHexTokenChar(p[end])
    ensures HexTokenEnd(p, pos, limit) == end
    decreases end - pos
  {
    if pos < end {
      HexTokenTo(p, pos + 1, limit, end);
    }
  }

  lemma HexValue1(s: string)
    requires |s| == 1 && AllHex(s)
    ensures HexValue(s) == HexDigitValue(s[0]).value
  {
    assert s[..0] == [];
  }

  lemma HexValue2(s: string)
    requires |s| == 2 && AllHex(s)
    ensures HexValue(s) == 16 * HexDigitValue(s[0]).value + HexDigitValue(s[1]).value
  {
    assert s[..1] == [s[0]];
    HexValue1(s[..1]);
  }

  lemma AllHexSlice(p: string, a: nat, b: nat)
    requires a <= b <= |p| && AllHex(p)
    ensures AllHex(p[a..b])
  {
    forall k | 0 <= k < b - a ensures HexDigitValue(p[a..b][k]).Some? {
      assert p[a..b][k] == p[a + k];
    }
  }

  /** On `3*w` hexadecimal digits the three verbs read consecutive groups of
      `w` digits. */
  lemma Scan3HexOnDigits(p: string, w: nat)
    requires 1 <= w && |p| == 3 * w && AllHex(p)
    ensures Scan3Hex(p, w) == Ok((HexValue(p[..w]), HexValue(p[w..2 * w]), HexValue(p[2 * w..])))
  {
    var w2, w3 := w + w, w + w + w;
    assert p[..w] == p[0..w] && p[w..2 * w] == p[w..w2] && p[2 * w..] == p[w2..w3];
    AllHexSlice(p, 0, w);
    AllHexSlice(p, w, w2);
    AllHexSlice(p, w2, w3);
    var a, b, c := HexValue(p[0..w]), HexValue(p[w..w2]), HexValue(p[w2..w3]);
    ScanHexOnDigits(p, 0, w, w);
    ScanHexOnDigits(p, w, w, w2);
    ScanHexOnDigits(p, w2, w, w3);
    Scan3HexSteps(p, w, a, w, b, w2, c, w3);
  }

  /** The three verbs in sequence, each starting where the previous one
      stopped. */
  lemma Scan3HexSteps(p: string, w: nat, a: nat, i: nat, b: nat, j: nat, c: nat, k: nat)
    requires i <= |p| && j <= |p|
    requires ScanHex(p, 0, w) == Ok((a, i)) && ScanHex(p, i, w) == Ok((b, j)) && ScanHex(p, j, w) == Ok((c, k))
    ensures Scan3Hex(p, w) == Ok((a, b, c))
  {
  }

  predicate IsLowerHexDigit(c: char) { '0' <= c <= '9' || 'a' <= c <= 'f' }

  predicate AllLowerHex(s: string) {
    forall i :: 0 <= i < |s| ==> IsLowerHexDigit(s[i])
  }

  /** A lower-case digit is printed back as itself. */
  lemma LowerHexDigitOfValue(c: char)
    requires IsLowerHexDigit(c)
    ensures HexDigitValue(c).Some? && LowerHexDigit(HexDigitValue(c).value) == c
  {
  }

  /** Reading two hexadecimal digits and printing the byte gives the digits
      back when they are lower case; and printing a byte and reading it back
      gives the byte. */
  lemma HexPairRoundTrip(s: string, b: byte)
    ensures |s| == 2 && AllLowerHex(s) ==> AllHex(s) && HexValue(s) < 256 && LowerHex2(HexValue(s) as byte) == s
    ensures AllHex(LowerHex2(b)) && HexValue(LowerHex2(b)) == b
  {
    if |s| == 2 && AllLowerHex(s) {
      LowerHexDigitOfValue(s[0]);
      LowerHexDigitOfValue(s[1]);
      assert s[..1][..0] == [] && s[..1][0] == s[0];
      assert HexValue(s[..1]) == HexDigitValue(s[0]).value;
      var v := HexValue(s);
      assert v == 16 * HexDigitValue(s[0]).value + HexDigitValue(s[1]).value;
      assert v / 16 == HexDigitValue(s[0]).value && v % 16 == HexDigitValue(s[1]).value;
    }
    var t := LowerHex2(b);
    assert t[..1][..0] == [] && t[..1][0] == t[0] && t[..|t| - 1] == t[..1];
    assert HexValue(t[..1]) == HexDigitValue(t[0]).value;
    assert HexValue(t) == 16 * HexDigitValue(t[0]).value + HexDigitValue(t[1]).value;
  }
}
