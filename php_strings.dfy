/** The PHP string built-ins the router and the REST adapter rely on, each
    stated over `seq<char>` with the behaviour PHP gives it. */
module PhpStrings {
  import opened Wrappers

  /** PHP's truthiness of a string: only "" and "0" are falsy. */
  predicate Truthy(s: string)
    // a string of two or more characters is always truthy, even "00" or "0.0"
    ensures Truthy(s) <==> |s| >= 2 || (|s| == 1 && s[0] != '0')
  {
    s != "" && s != "0"
  }

  /** `empty($s)` on a string, or on null, which this model writes as "". */
  predicate Empty(s: string)
    ensures Empty(s) <==> s in {"", "0"}
  {
    !Truthy(s)
  }

  /** `explode($sep, $s)` for a one-character separator: the pieces between
      separators, left to right, empty pieces kept. */
  function Explode(s: string, sep: char): (parts: seq<string>)
    ensures |parts| >= 1
    ensures forall i :: 0 <= i < |parts| ==> sep !in parts[i]
    decreases |s|
  {
    if |s| == 0 then [""]
    else
      var rest := Explode(s[1..], sep);
      if s[0] == sep then [""] + rest
      else [[s[0]] + rest[0]] + rest[1..]
  }

  /** `implode($sep, $parts)`. */
  function Join(parts: seq<string>, sep: char): string
  {
    if |parts| == 0 then ""
    else if |parts| == 1 then parts[0]
    else parts[0] + [sep] + Join(parts[1..], sep)
  }

  /** Splitting and re-joining gives the string back. */
  lemma {:induction false} JoinExplode(s: string, sep: char)
    ensures Join(Explode(s, sep), sep) == s
    decreases |s|
  {
    if |s| > 0 {
      JoinExplode(s[1..], sep);
      var rest := Explode(s[1..], sep);
      if s[0] == sep {
        assert Explode(s, sep) == [""] + rest;
        assert ([""] + rest)[1..] == rest;
      } else {
        var parts := Explode(s, sep);
        assert parts == [[s[0]] + rest[0]] + rest[1..];
        if |rest| == 1 {
          assert parts == [[s[0]] + rest[0]];
        } else {
          assert parts[1..] == rest[1..];
          assert Join(rest, sep) == rest[0] + [sep] + Join(rest[1..], sep);
        }
        assert s == [s[0]] + s[1..];
      }
    }
  }

  /** A separator-free prefix joins the first piece of what follows it. */
  lemma {:induction false} ExplodeAppend(a: string, t: string, sep: char)
    requires sep !in a
    ensures Explode(a + t, sep) == [a + Explode(t, sep)[0]] + Explode(t, sep)[1..]
    decreases |a|
  {
    if |a| == 0 {
      assert a + t == t;
      assert a + Explode(t, sep)[0] == Explode(t, sep)[0];
      assert Explode(t, sep) == [Explode(t, sep)[0]] + Explode(t, sep)[1..];
    } else {
      ExplodeAppend(a[1..], t, sep);
      var e := Explode(t, sep);
      var rest := Explode(a[1..] + t, sep);
      assert (a + t)[1..] == a[1..] + t;
      assert (a + t)[0] == a[0] && a[0] != sep;
      assert Explode(a + t, sep) == [[a[0]] + rest[0]] + rest[1..];
      assert rest[0] == a[1..] + e[0] && rest[1..] == e[1..];
      assert [a[0]] + (a[1..] + e[0]) == a + e[0];
    }
  }

  /** Joining pieces free of the separator and splitting again gives the
      pieces back: `explode` is the inverse of `implode` on such lists. */
  lemma {:induction false} ExplodeJoin(parts: seq<string>, sep: char)
    requires |parts| >= 1
    requires forall i :: 0 <= i < |parts| ==> sep !in parts[i]
    ensures Explode(Join(parts, sep), sep) == parts
    decreases |parts|
  {
    if |parts| == 1 {
      ExplodeAppend(parts[0], "", sep);
      assert parts[0] + "" == parts[0];
    } else {
      var tail := Join(parts[1..], sep);
      ExplodeJoin(parts[1..], sep);
      assert Join(parts, sep) == parts[0] + ([sep] + tail);
      ExplodeAppend(parts[0], [sep] + tail, sep);
      assert ([sep] + tail)[1..] == tail;
      assert Explode([sep] + tail, sep) == [""] + Explode(tail, sep);
      assert parts[0] + "" == parts[0];
      assert parts == [parts[0]] + parts[1..];
    }
  }

  /** The number of leading `c`s of `s`. */
  function LeadingCount(s: string, c: char): (n: nat)
    ensures n <= |s|
    ensures forall i :: 0 <= i < n ==> s[i] == c
    ensures n == |s| || s[n] != c
    decreases |s|
  {
    if |s| > 0 && s[0] == c then 1 + LeadingCount(s[1..], c) else 0
  }

  /** The number of trailing `c`s of `s`. */
  function TrailingCount(s: string, c: char): (n: nat)
    ensures n <= |s|
    ensures forall i :: |s| - n <= i < |s| ==> s[i] == c
    ensures n == |s| || s[|s| - n - 1] != c
    decreases |s|
  {
    if |s| > 0 && s[|s| - 1] == c then 1 + TrailingCount(s[..|s| - 1], c) else 0
  }

  /** `ltrim($s, $c)`: drops every leading `c`. */
  function TrimLeft(s: string, c: char): (r: string)
    ensures |r| <= |s| && r == s[|s| - |r|..]
    ensures forall i :: 0 <= i < |s| - |r| ==> s[i] == c
    ensures r == [] || r[0] != c
  {
    s[LeadingCount(s, c)..]
  }

  /** `rtrim($s, $c)`: drops every trailing `c`. */
  function TrimRight(s: string, c: char): (r: string)
    ensures |r| <= |s| && r == s[..|r|]
    ensures forall i :: |r| <= i < |s| ==> s[i] == c
    ensures r == [] || r[|r| - 1] != c
  {
    s[..|s| - TrailingCount(s, c)]
  }

  /** `trim($s, $c)`: the longest infix of `s` that neither starts nor ends with `c`,
      reached by dropping only `c`s. */
  function Trim(s: string, c: char): (r: string)
    ensures |r| <= |s|
    ensures var k := |s| - |TrimLeft(s, c)|;
      && k + |r| <= |s| && r == s[k..k + |r|]
      && (forall i :: 0 <= i < k ==> s[i] == c)
      && (forall i :: k + |r| <= i < |s| ==> s[i] == c)
    ensures r == [] || (r[0] != c && r[|r| - 1] != c)
  {
    TrimBothEnds(s, c);
    TrimRight(TrimLeft(s, c), c)
  }

  /** Trimming the front and then the back leaves an infix of `s`, with
      only `c`s dropped on either side. */
  lemma TrimBothEnds(s: string, c: char)
    ensures var left := TrimLeft(s, c);
      var r := TrimRight(left, c);
      var k := |s| - |left|;
      && k + |r| <= |s| && r == s[k..k + |r|]
      && (forall i :: k + |r| <= i < |s| ==> s[i] == c)
      && (r == [] || r[0] != c)
  {
    var left := TrimLeft(s, c);
    InfixOfSuffix(s, left, TrimRight(left, c), c, |s| - |left|);
  }

  /** A prefix `r` of the suffix `left` of `s` is an infix of `s`; what
      follows it in `s` is what follows it in `left`. */
  lemma InfixOfSuffix(s: string, left: string, r: string, c: char, k: nat)
    requires k <= |s| && left == s[k..]
    requires |r| <= |left| && r == left[..|r|]
    requires forall i :: |r| <= i < |left| ==> left[i] == c
    requires left == [] || left[0] != c
    ensures k + |r| <= |s| && r == s[k..k + |r|]
    ensures forall i :: k + |r| <= i < |s| ==> s[i] == c
    ensures r == [] || r[0] != c
  {
    assert r == s[k..][..|r|] == s[k..k + |r|];
    forall i | k + |r| <= i < |s| ensures s[i] == c {
      assert s[i] == left[i - k];
    }
    if r != [] {
      assert r[0] == left[0];
    }
  }

  /** `strtolower` on one character: ASCII letters only, as PHP 8.2 and later do. */
  function LowerChar(c: char): char {
    if 'A' <= c <= 'Z' then (c as int + 32) as char else c
  }

  /** `strtolower($s)`. */
  function Lower(s: string): (r: string)
    ensures |r| == |s|
    ensures forall i :: 0 <= i < |s| ==> r[i] == LowerChar(s[i])
    ensures forall i :: 0 <= i < |r| ==> !('A' <= r[i] <= 'Z')
  {
    seq(|s|, i requires 0 <= i < |s| => LowerChar(s[i]))
  }

  /** Lowering twice is lowering once. */
  lemma LowerIdempotent(s: string)
    ensures Lower(Lower(s)) == Lower(s)
  {
  }

  /** `str_replace($c, '', $s)` for a single character `c`: the other
      characters, in order. */
  function RemoveChar(s: string, c: char): (r: string)
    ensures c !in r
    ensures |r| <= |s|
    ensures forall x :: x != c ==> multiset(r)[x] == multiset(s)[x]
    // a string without the character comes back as it is
    ensures c !in s ==> r == s
    decreases |s|
  {
    if |s| == 0 then ""
    else
      var rest := RemoveChar(s[1..], c);
      assert s == [s[0]] + s[1..];
      if s[0] == c then rest else [s[0]] + rest
  }

  /** Removing a character from a concatenation removes it from each part
      and keeps the parts in order. */
  lemma {:induction false} RemoveCharAppend(a: string, b: string, c: char)
    ensures RemoveChar(a + b, c) == RemoveChar(a, c) + RemoveChar(b, c)
    decreases |a|
  {
    if |a| > 0 {
      assert (a + b)[1..] == a[1..] + b;
      assert (a + b)[0] == a[0];
      RemoveCharAppend(a[1..], b, c);
    } else {
      assert a + b == b;
    }
  }

  /** `needle` occurs in `s` starting at index `j`. */
  predicate OccursAt(s: string, needle: string, j: int) {
    0 <= j <= |s| && needle <= s[j..]
  }

  /** An occurrence in the tail is an occurrence in `s`, one index later. */
  lemma OccursInTail(s: string, needle: string)
    requires |s| > 0
    ensures forall j :: 1 <= j ==> (OccursAt(s, needle, j) <==> OccursAt(s[1..], needle, j - 1))
    ensures forall j :: 0 <= j ==> (OccursAt(s[1..], needle, j) <==> OccursAt(s, needle, j + 1))
  {
    forall j | 1 <= j <= |s| ensures s[j..] == s[1..][j - 1..] { }
  }

  /** `strpos($s, $needle)`: the index of the first occurrence. */
  function Find(s: string, needle: string): (r: Option<nat>)
    ensures r.Some? ==> r.value + |needle| <= |s| && s[r.value..r.value + |needle|] == needle
    ensures r.Some? ==> OccursAt(s, needle, r.value)
    ensures r.Some? ==> forall j :: 0 <= j < r.value ==> !OccursAt(s, needle, j)
    ensures r.None? ==> forall j :: !OccursAt(s, needle, j)
    decreases |s|
  {
    if needle <= s then
      assert s[0..] == s;
      Some(0)
    else if |s| == 0 then None
    else
      OccursInTail(s, needle);
      assert s[0..] == s;
      match Find(s[1..], needle)
      case None => None
      case Some(i) => Some(i + 1)
  }

  /** The case-sensitive index of the last occurrence of `c`. It equals
      `strripos($s, $c)` for a needle without case, such as `*`. */
  function LastIndexOf(s: string, c: char): (r: Option<nat>)
    ensures r.Some? ==> r.value < |s| && s[r.value] == c
    ensures r.Some? ==> forall j :: r.value < j < |s| ==> s[j] != c
    ensures r.None? <==> c !in s
    decreases |s|
  {
    if |s| == 0 then None
    else if s[|s| - 1] == c then Some(|s| - 1)
    else
      assert s == s[..|s| - 1] + [s[|s| - 1]];
      LastIndexOf(s[..|s| - 1], c)
  }

  /** `str_replace($needle, $rep, $s)`: every non-overlapping occurrence of
      `needle`, scanned left to right, is replaced; an empty needle changes nothing. */
  function ReplaceAll(s: string, needle: string, rep: string): (r: string)
    ensures |needle| == 0 ==> r == s
    // an occurrence at the front is replaced at the front
    ensures |needle| > 0 && needle <= s ==> rep <= r
    decreases |s|
  {
    if |needle| == 0 then s
    else if needle <= s then
      rep + ReplaceAll(s[|needle|..], needle, rep)
    else if |s| == 0 then s
    else
      [s[0]] + ReplaceAll(s[1..], needle, rep)
  }

  /** `str_replace` replaces the occurrence `strpos` finds, keeps what
      precedes it, and resumes the scan right after it. */
  lemma ReplaceAtFirst(s: string, needle: string, rep: string, j: nat)
    requires |needle| > 0 && Find(s, needle) == Some(j)
    ensures j + |needle| <= |s|
    ensures ReplaceAll(s, needle, rep) == s[..j] + rep + ReplaceAll(s[j + |needle|..], needle, rep)
  {
    ReplaceAtFirstOccurrence(s, needle, rep, j);
  }

  /** `ReplaceAtFirst`, with the first occurrence at `j` stated directly. */
  lemma ReplaceAtFirstOccurrence(s: string, needle: string, rep: string, j: nat)
    requires |needle| > 0 && OccursAt(s, needle, j)
    requires forall k :: 0 <= k < j ==> !OccursAt(s, needle, k)
    ensures j + |needle| <= |s|
    ensures ReplaceAll(s, needle, rep) == s[..j] + rep + ReplaceAll(s[j + |needle|..], needle, rep)
  {
    var pre, post := s[..j], s[j + |needle|..];
    SplitAtOccurrence(s, needle, j);
    ReplaceAfterPrefix(pre, needle, post, rep);
  }

  /** A needle that does not occur leaves the subject unchanged. */
  lemma {:induction false} ReplaceWithoutOccurrence(s: string, needle: string, rep: string)
    requires forall j :: !OccursAt(s, needle, j)
    ensures ReplaceAll(s, needle, rep) == s
    decreases |s|
  {
    if |needle| > 0 && |s| > 0 {
      assert s[0..] == s;
      assert !(needle <= s) by { assert !OccursAt(s, needle, 0); }
      OccursInTail(s, needle);
      ReplaceWithoutOccurrence(s[1..], needle, rep);
      assert s == [s[0]] + s[1..];
    }
  }

  /** `sprintf('%d', $n)` for a non-negative integer. */
  function DecimalString(n: nat): string
  {
    if n < 10 then [('0' as int + n) as char]
    else DecimalString(n / 10) + [('0' as int + n % 10) as char]
  }

  /** The number a string of decimal digits denotes. */
  function DecimalValue(s: string): int
    decreases |s|
  {
    if |s| == 0 then 0
    else DecimalValue(s[..|s| - 1]) * 10 + (s[|s| - 1] as int - '0' as int)
  }

  /** `sprintf('%d')` prints only digits, with no leading zero except for zero itself. */
  lemma {:induction false} DecimalDigits(n: nat)
    ensures |DecimalString(n)| >= 1
    ensures forall i :: 0 <= i < |DecimalString(n)| ==> '0' <= DecimalString(n)[i] <= '9'
    ensures DecimalString(n)[0] == '0' <==> n == 0
  {
    if n >= 10 {
      DecimalDigits(n / 10);
      var s := DecimalString(n);
      assert s == DecimalString(n / 10) + [('0' as int + n % 10) as char];
      assert s[0] == DecimalString(n / 10)[0];
    }
  }

  /** Reading back the digits `sprintf('%d')` prints gives the number. */
  lemma {:induction false} DecimalRoundTrip(n: nat)
    ensures DecimalValue(DecimalString(n)) == n
  {
    if n >= 10 {
      var s := DecimalString(n);
      assert s[..|s| - 1] == DecimalString(n / 10);
      DecimalRoundTrip(n / 10);
    }
  }

  /** An occurrence at the front is replaced, and the scan resumes after it. */
  lemma ReplaceAtFront(needle: string, t: string, rep: string)
    requires |needle| > 0
    ensures ReplaceAll(needle + t, needle, rep) == rep + ReplaceAll(t, needle, rep)
  {
    assert needle <= needle + t;
    assert (needle + t)[|needle|..] == t;
  }

  /** A character that does not start an occurrence is kept. */
  lemma ReplaceSkipsChar(c: char, t: string, needle: string, rep: string)
    requires |needle| > 0 && !OccursAt([c] + t, needle, 0)
    ensures ReplaceAll([c] + t, needle, rep) == [c] + ReplaceAll(t, needle, rep)
  {
    assert ([c] + t)[0..] == [c] + t;
    assert ([c] + t)[1..] == t;
  }

  /** An occurrence at `j` splits `s` into what precedes it, the needle and what follows. */
  lemma SplitAtOccurrence(s: string, needle: string, j: nat)
    requires OccursAt(s, needle, j)
    ensures j + |needle| <= |s|
    ensures s == s[..j] + (needle + s[j + |needle|..])
  {
    assert s[j..j + |needle|] == needle;
    assert s == s[..j] + s[j..j + |needle|] + s[j + |needle|..];
  }

  /** The first occurrence of `p` in `pre + p + post`, after a `pre` in
      which none starts, is replaced and the scan resumes after it. */
  lemma {:induction false} ReplaceAfterPrefix(pre: string, p: string, post: string, rep: string)
    requires |p| > 0
    requires forall j :: 0 <= j < |pre| ==> !OccursAt(pre + (p + post), p, j)
    ensures ReplaceAll(pre + (p + post), p, rep) == pre + (rep + ReplaceAll(post, p, rep))
    decreases |pre|
  {
    if |pre| == 0 {
      assert pre + (p + post) == p + post;
      ReplaceAtFront(p, post, rep);
      assert pre + (rep + ReplaceAll(post, p, rep)) == rep + ReplaceAll(post, p, rep);
    } else {
      var rest := pre[1..];
      NoOccurrenceAfterFirst(pre, p + post, p);
      ReplaceAfterPrefix(rest, p, post, rep);
      ReplaceSkipsChar(pre[0], rest + (p + post), p, rep);
      ConsTail(pre, rep + ReplaceAll(post, p, rep));
    }
  }

  /** A non-empty `pre` is its first character followed by the rest. */
  lemma ConsTail(pre: string, t: string)
    requires |pre| > 0
    ensures pre + t == [pre[0]] + (pre[1..] + t)
  {
  }

  /** With no occurrence starting inside `mid`, the one at the end of
      `mid + p` is still replaced. */
  lemma ReplaceUpToTrailing(mid: string, p: string, rep: string)
    requires |p| > 0
    requires forall j :: 0 <= j < |mid| ==> !OccursAt(mid + p, p, j)
    ensures ReplaceAll(mid + p, p, rep) == mid + rep
  {
    assert mid + p == mid + (p + "");
    ReplaceAfterPrefix(mid, p, "", rep);
    assert ReplaceAll("", p, rep) == "";
    assert rep + "" == rep;
  }

  /** Dropping the first character of `pre` keeps `pre + t` free of
      occurrences of `p` that start inside `pre`. */
  lemma NoOccurrenceAfterFirst(pre: string, t: string, p: string)
    requires |pre| > 0
    requires forall j :: 0 <= j < |pre| ==> !OccursAt(pre + t, p, j)
    ensures pre + t == [pre[0]] + (pre[1..] + t)
    ensures !OccursAt([pre[0]] + (pre[1..] + t), p, 0)
    ensures forall j :: 0 <= j < |pre| - 1 ==> !OccursAt(pre[1..] + t, p, j)
  {
    var s := pre + t;
    assert s == [pre[0]] + (pre[1..] + t);
    OccursInTail(s, p);
    assert s[1..] == pre[1..] + t;
    assert !OccursAt(s, p, 0);
  }

  /** `str_replace` replaces a needle both at the front and at the end of
      the subject, not only the first occurrence. */
  lemma ReplaceBothEnds(p: string, mid: string, rep: string)
    requires |p| > 0
    requires forall j :: 0 <= j < |mid| ==> !OccursAt(mid + p, p, j)
    ensures ReplaceAll(p + (mid + p), p, rep) == rep + (mid + rep)
  {
    ReplaceUpToTrailing(mid, p, rep);
    ReplaceAtFront(p, mid + p, rep);
  }

  /** Replacing a string by itself changes nothing. */
  lemma {:induction false} ReplaceByItself(s: string, needle: string)
    ensures ReplaceAll(s, needle, needle) == s
    decreases |s|
  {
    if |needle| > 0 && needle <= s {
      ReplaceByItself(s[|needle|..], needle);
      assert s == needle + s[|needle|..];
    } else if |needle| > 0 && |s| > 0 {
      ReplaceByItself(s[1..], needle);
      assert s == [s[0]] + s[1..];
    }
  }

  /** A needle absent from the first `j` positions of `s` is absent from `s[..j]`. */
  lemma FindInPrefix(s: string, needle: string, j: nat)
    requires |needle| > 0 && j <= |s|
    requires forall k :: 0 <= k < j ==> !OccursAt(s, needle, k)
    ensures Find(s[..j], needle).None?
  {
    var t := s[..j];
    forall k | 0 <= k <= |t| ensures !OccursAt(t, needle, k) {
      if k + |needle| <= j {
        assert t[k..][..|needle|] == s[k..][..|needle|];
        assert OccursAt(t, needle, k) == OccursAt(s, needle, k);
      }
    }
  }
}
