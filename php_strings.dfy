/** The string functions the package calls: Laravel's `Str::before`, `Str::after` and
    `Str::endsWith` (as in Laravel 5.x, whose source is not part of this model),
    and PHP's `strtoupper`, `explode` and `trim` for a single-character delimiter. */
module PhpStrings {
  import opened PhpValues

  /** `pat` occurs in `s` starting at position `j`. */
  predicate OccursAt(s: string, pat: string, j: nat) {
    j + |pat| <= |s| && s[j..j + |pat|] == pat
  }

  /** The first position at or after `from` where `pat` occurs. */
  function IndexFrom(s: string, pat: string, from: nat): (r: Option<nat>)
    requires from <= |s|
    ensures r.Some? ==> from <= r.value && OccursAt(s, pat, r.value)
    ensures r.Some? ==> forall j :: from <= j < r.value ==> !OccursAt(s, pat, j)
    ensures r.None? ==> forall j :: from <= j <= |s| ==> !OccursAt(s, pat, j)
    decreases |s| - from
  {
    if OccursAt(s, pat, from) then Some(from)
    else if from == |s| then None
    else IndexFrom(s, pat, from + 1)
  }

  /** `strpos($s, $pat)`: the first position where `pat` occurs. */
  function IndexOf(s: string, pat: string): (r: Option<nat>)
    ensures r.Some? ==> OccursAt(s, pat, r.value) && forall j :: 0 <= j < r.value ==> !OccursAt(s, pat, j)
    ensures r.None? ==> forall j :: 0 <= j <= |s| ==> !OccursAt(s, pat, j)
  {
    IndexFrom(s, pat, 0)
  }

  /** The first occurrence is determined by where `pat` first occurs. */
  lemma IndexOfAt(s: string, pat: string, i: nat)
    requires OccursAt(s, pat, i)
    requires forall j :: 0 <= j < i ==> !OccursAt(s, pat, j)
    ensures IndexOf(s, pat) == Some(i)
  {
  }

  /** `pat` occurs somewhere in `s`. */
  predicate Contains(s: string, pat: string) {
    IndexOf(s, pat).Some?
  }

  /** `Str::before($s, $search)`: the part before the first occurrence, or all of `s`
      when `search` does not occur or is empty. */
  function Before(s: string, search: string): string {
    if search == [] then s
    else match IndexOf(s, search)
      case None => s
      case Some(i) => s[..i]
  }

  /** `Str::after($s, $search)`: the part after the first occurrence, or all of `s`
      when `search` does not occur or is empty. */
  function After(s: string, search: string): string {
    if search == [] then s
    else match IndexOf(s, search)
      case None => s
      case Some(i) => s[i + |search|..]
  }

  /** `s` ends with `suffix`. */
  predicate EndsWith(s: string, suffix: string) {
    |suffix| <= |s| && s[|s| - |suffix|..] == suffix
  }

  /** One needle of `Str::endsWith`: `substr($s, -strlen($needle)) === $needle`,
      so an empty needle matches only the empty string. */
  predicate EndsWithNeedle(s: string, needle: string) {
    if needle == [] then s == [] else EndsWith(s, needle)
  }

  /** `Str::endsWith($s, $needles)`: some needle matches. */
  function EndsWithAny(s: string, needles: seq<string>): (r: bool)
    ensures r <==> exists k :: 0 <= k < |needles| && EndsWithNeedle(s, needles[k])
  {
    if needles == [] then false
    else if EndsWithNeedle(s, needles[0]) then true
    else
      assert forall k :: 1 <= k < |needles| ==> needles[1..][k - 1] == needles[k];
      EndsWithAny(s, needles[1..])
  }

  /** ASCII upper case of one byte. */
  function UpperChar(c: char): char {
    if 'a' <= c <= 'z' then (c as int - 32) as char else c
  }

  /** `strtoupper($s)`, which maps only the ASCII letters. */
  function Upper(s: string): (r: string)
    ensures |r| == |s|
    ensures forall k :: 0 <= k < |s| ==> r[k] == UpperChar(s[k])
  {
    if s == [] then [] else [UpperChar(s[0])] + Upper(s[1..])
  }

  /** `explode($sep, $s)` for a one-character separator: the pieces between separators,
      at least one. */
  function Explode(s: string, sep: char): (r: seq<string>)
    ensures |r| >= 1
    ensures forall k :: 0 <= k < |r| ==> sep !in r[k]
  {
    if s == [] then [""]
    else
      var rest := Explode(s[1..], sep);
      if s[0] == sep then [""] + rest
      else [[s[0]] + rest[0]] + rest[1..]
  }

  /** `implode($sep, $pieces)`. */
  function Implode(pieces: seq<string>, sep: char): string
    requires |pieces| >= 1
  {
    if |pieces| == 1 then pieces[0] else pieces[0] + [sep] + Implode(pieces[1..], sep)
  }

  /** Exploding and imploding again gives back the original string. */
  lemma {:induction false} ImplodeExplode(s: string, sep: char)
    ensures Implode(Explode(s, sep), sep) == s
  {
    if s != [] {
      ImplodeExplode(s[1..], sep);
      var rest := Explode(s[1..], sep);
      if s[0] == sep {
        assert ([""] + rest)[1..] == rest;
      } else {
        var e := Explode(s, sep);
        assert e[0] == [s[0]] + rest[0];
        if |rest| > 1 {
          assert e[1..] == rest[1..];
        }
      }
    }
  }

  /** The first piece of `explode` is everything before the first separator. */
  lemma {:induction false} ExplodeHead(head: string, rest: string, sep: char)
    requires sep !in head
    ensures Explode(head + [sep] + rest, sep)[0] == head
  {
    if head != [] {
      assert (head + [sep] + rest)[1..] == head[1..] + [sep] + rest;
      ExplodeHead(head[1..], rest, sep);
    } else {
      assert head + [sep] + rest == [sep] + rest;
    }
  }

  /** `ltrim($s, $c)`: drop every leading `c`. */
  function TrimLeft(s: string, c: char): (r: string)
    ensures |r| <= |s| && r == s[|s| - |r|..]
    ensures forall k :: 0 <= k < |s| - |r| ==> s[k] == c
    ensures r == [] || r[0] != c
  {
    if s != [] && s[0] == c then TrimLeft(s[1..], c) else s
  }

  /** `rtrim($s, $c)`: drop every trailing `c`. */
  function TrimRight(s: string, c: char): (r: string)
    ensures |r| <= |s| && r == s[..|r|]
    ensures forall k :: |r| <= k < |s| ==> s[k] == c
    ensures r == [] || r[|r| - 1] != c
  {
    if s != [] && s[|s| - 1] == c then TrimRight(s[..|s| - 1], c) else s
  }

  /** `trim($s, $c)` for one character: drop every leading and trailing `c`. */
  function Trim(s: string, c: char): (r: string)
    ensures r == [] || (r[0] != c && r[|r| - 1] != c)
    ensures |r| <= |s| - LeadingCount(s, c) && r == s[LeadingCount(s, c)..LeadingCount(s, c) + |r|]
    ensures forall k :: 0 <= k < LeadingCount(s, c) ==> s[k] == c
    ensures forall k :: LeadingCount(s, c) + |r| <= k < |s| ==> s[k] == c
  {
    TrimBounds(s, c);
    TrimRight(TrimLeft(s, c), c)
  }

  /** Trimming both ends keeps the middle of `s` between the dropped runs of `c`. */
  lemma TrimBounds(s: string, c: char)
    ensures var l := TrimLeft(s, c); var r := TrimRight(l, c); var n := |s| - |l|;
      n + |r| <= |s| && r == s[n..n + |r|] &&
      (r == [] || r[0] != c) &&
      forall k :: n + |r| <= k < |s| ==> s[k] == c
  {
    var l := TrimLeft(s, c);
    var r := TrimRight(l, c);
    var n := |s| - |l|;
    assert r != [] ==> r[0] == l[0];
    assert r == s[n..][..|r|];
    forall k | n + |r| <= k < |s|
      ensures s[k] == c
    {
      assert s[k] == l[k - n];
    }
  }

  /** The number of leading `c` that `trim` drops. */
  function LeadingCount(s: string, c: char): nat {
    |s| - |TrimLeft(s, c)|
  }
}
