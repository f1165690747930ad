/** The string handling `updatedatabase` does on the last part of the URL:
    Python's `str(int)`, `str.split(sep)` and the choice of the piece that
    holds the article name. */
module Text {
  import opened Wrappers

  /** sep occurs in s starting at position k. */
  predicate OccursAt(s: string, sep: string, k: nat) {
    k + |sep| <= |s| && s[k..k + |sep|] == sep
  }

  lemma OccursShift(s: string, sep: string, k: nat)
    requires s != []
    ensures OccursAt(s[1..], sep, k) <==> OccursAt(s, sep, k + 1)
  {
    if k + |sep| <= |s[1..]| {
      assert s[1..][k..k + |sep|] == s[k + 1..k + 1 + |sep|];
    }
  }

  /** `s.find(sep)`: the first position where sep occurs, None for -1. */
  function Find(s: string, sep: string): (r: Option<nat>)
    ensures r.Some? ==> OccursAt(s, sep, r.value)
    ensures r.Some? ==> forall k :: 0 <= k < r.value ==> !OccursAt(s, sep, k)
    ensures r.None? ==> forall k :: 0 <= k <= |s| ==> !OccursAt(s, sep, k)
  {
    if |s| < |sep| then None
    else if s[..|sep|] == sep then Some(0)
    else
      assert !OccursAt(s, sep, 0);
      match Find(s[1..], sep)
      case None =>
        forall k | 1 <= k <= |s| ensures !OccursAt(s, sep, k) {
          OccursShift(s, sep, k - 1);
        }
        None
      case Some(k) =>
        OccursShift(s, sep, k);
        forall j | 1 <= j < k + 1 ensures !OccursAt(s, sep, j) {
          OccursShift(s, sep, j - 1);
        }
        Some(k + 1)
  }

  /** A prefix of s that stops before the first occurrence of sep holds none. */
  lemma NoOccurrenceBefore(s: string, sep: string, k: nat)
    requires k <= |s|
    requires forall j :: 0 <= j < k ==> !OccursAt(s, sep, j)
    requires sep != []
    ensures Find(s[..k], sep).None?
  {
    forall j | 0 <= j <= k && OccursAt(s[..k], sep, j) ensures false {
      assert s[..k][j..j + |sep|] == s[j..j + |sep|];
      assert OccursAt(s, sep, j);
    }
  }

  /** `s.split(sep)` for a non-empty separator: the pieces between the
      occurrences of sep, scanned left to right. */
  function Split(s: string, sep: string): (r: seq<string>)
    requires sep != []
    ensures |r| >= 1
    ensures forall i :: 0 <= i < |r| ==> Find(r[i], sep).None?
    decreases |s|
  {
    match Find(s, sep)
    case None => [s]
    case Some(k) =>
      NoOccurrenceBefore(s, sep, k);
      [s[..k]] + Split(s[k + |sep|..], sep)
  }

  /** `sep.join(parts)`. */
  function Join(parts: seq<string>, sep: string): string {
    if |parts| == 0 then []
    else if |parts| == 1 then parts[0]
    else parts[0] + sep + Join(parts[1..], sep)
  }

  /** The text of s before the first occurrence of sep, or all of s. */
  function BeforeFirst(s: string, sep: string): (r: string)
    ensures |r| <= |s| && s[..|r|] == r
    ensures forall k :: 0 <= k < |r| ==> !OccursAt(s, sep, k)
    ensures |r| == |s| || OccursAt(s, sep, |r|)
  {
    match Find(s, sep)
    case None => s
    case Some(k) => s[..k]
  }

  /** The first piece of a split: the text before the first occurrence of
      sep, or all of s. */
  lemma FirstPiece(s: string, sep: string)
    requires sep != []
    ensures var p := Split(s, sep)[0];
      && p == BeforeFirst(s, sep)
      && |p| <= |s| && s[..|p|] == p
      && (|p| == |s| || OccursAt(s, sep, |p|))
      && (Find(s, sep).None? ==> p == s)
  {
  }

  /** The first piece ends where sep first occurs. */
  lemma SplitHead(s: string, sep: string)
    requires sep != []
    ensures Split(s, sep)[0] == BeforeFirst(s, sep)
  {
  }

  /** After the first piece and the separator comes the split of the rest. */
  lemma SplitTail(s: string, sep: string)
    requires sep != [] && Find(s, sep).Some?
    ensures var k := Find(s, sep).value;
      && Split(s, sep)[0] == s[..k]
      && Split(s, sep)[1..] == Split(s[k + |sep|..], sep)
  {
  }

  /** Where sep occurs, the second piece is the first piece of the rest. */
  lemma SecondPiece(s: string, sep: string)
    requires sep != []
    ensures Find(s, sep).Some? <==> |Split(s, sep)| > 1
    ensures Find(s, sep).Some? ==>
      var rest := s[Find(s, sep).value + |sep|..];
      Split(s, sep)[1] == BeforeFirst(rest, sep)
  {
    if Find(s, sep).Some? {
      SecondPieceOfRest(s, sep);
    }
  }

  lemma SecondPieceOfRest(s: string, sep: string)
    requires sep != [] && Find(s, sep).Some?
    ensures var rest := s[Find(s, sep).value + |sep|..];
      |Split(s, sep)| > 1 && Split(s, sep)[1] == BeforeFirst(rest, sep)
  {
    var rest := s[Find(s, sep).value + |sep|..];
    var pieces, tail := Split(s, sep), Split(rest, sep);
    assert pieces[1..] == tail by {
      SplitTail(s, sep);
    }
    assert pieces[1] == tail[0];
    assert tail[0] == BeforeFirst(rest, sep) by {
      SplitHead(rest, sep);
    }
  }

  /** The piece `updatedatabase` keeps: the second if there is one, else the first. */
  lemma ChosenPiece(s: string, sep: string)
    requires sep != []
    ensures var pieces := Split(s, sep);
      var r := if |pieces| > 1 then pieces[1] else pieces[0];
      && Find(r, sep).None?
      && (Find(s, sep).None? ==> r == s)
      && (Find(s, sep).Some? ==>
            var rest := s[Find(s, sep).value + |sep|..];
            && r == BeforeFirst(rest, sep)
            && |r| <= |rest| && rest[..|r|] == r
            && (|r| == |rest| || OccursAt(rest, sep, |r|)))
  {
    FirstPiece(s, sep);
    SecondPiece(s, sep);
  }

  /** Joining a split puts the separator back after the first piece. */
  lemma JoinSplitStep(s: string, sep: string)
    requires sep != [] && Find(s, sep).Some?
    ensures var k := Find(s, sep).value;
      Join(Split(s, sep), sep) == s[..k] + sep + Join(Split(s[k + |sep|..], sep), sep)
  {
    SplitTail(s, sep);
  }

  /** Splitting and joining again gives back the original string. */
  lemma {:induction false} JoinSplit(s: string, sep: string)
    requires sep != []
    ensures Join(Split(s, sep), sep) == s
    decreases |s|
  {
    if Find(s, sep).Some? {
      var k := Find(s, sep).value;
      var rest := s[k + |sep|..];
      JoinSplitStep(s, sep);
      JoinSplit(rest, sep);
      Around(s, k, k + |sep|);
    }
  }

  lemma Around(s: string, i: nat, j: nat)
    requires i <= j <= |s|
    ensures s == s[..i] + s[i..j] + s[j..]
  {
  }

  /** The decimal digits of n, most significant first, without leading zeros. */
  function Digits(n: nat): (r: string)
    ensures |r| >= 1
    ensures forall i :: 0 <= i < |r| ==> '0' <= r[i] <= '9'
    ensures r[0] == '0' ==> n == 0
  {
    if n < 10 then [(48 + n) as char]
    else Digits(n / 10) + [(48 + n % 10) as char]
  }

  /** The value of a string of decimal digits. */
  function ParseDigits(s: string): nat
    requires forall i :: 0 <= i < |s| ==> '0' <= s[i] <= '9'
  {
    if s == [] then 0
    else ParseDigits(s[..|s| - 1]) * 10 + (s[|s| - 1] as int - 48)
  }

  /** Reading the digits back gives the number. */
  lemma {:induction false} ParseDigitsOfDigits(n: nat)
    ensures ParseDigits(Digits(n)) == n
  {
    if n >= 10 {
      ParseDigitsOfDigits(n / 10);
      assert Digits(n)[..|Digits(n)| - 1] == Digits(n / 10);
    }
  }

  /** `str(n)`: a minus sign for negative numbers, then the digits. */
  function DecimalString(n: int): (r: string)
    ensures |r| >= 1
    ensures n < 0 <==> r[0] == '-'
    ensures var d := if n < 0 then r[1..] else r;
      && |d| >= 1
      && (forall i :: 0 <= i < |d| ==> '0' <= d[i] <= '9')
      && (d[0] == '0' ==> |d| == 1)
      && ParseDigits(d) == if n < 0 then -n else n
  {
    var m: nat := if n < 0 then -n else n;
    ParseDigitsOfDigits(m);
    var r := if n < 0 then "-" + Digits(m) else Digits(m);
    assert (if n < 0 then r[1..] else r) == Digits(m);
    r
  }

  /** The article name `updatedatabase` reads from the URL part `s` for user
      `id`: the second piece of `s.split(str(id) + '-')` when there is one
      (the text between the first occurrence of the separator and the next
      one, or the end), otherwise the first piece, which is all of s. */
  function ArticleName(s: string, id: int): (r: string)
    ensures var sep := DecimalString(id) + "-";
      Find(s, sep).None? ==> r == s
    ensures var sep := DecimalString(id) + "-";
      Find(s, sep).Some? ==>
        var rest := s[Find(s, sep).value + |sep|..];
        && r == BeforeFirst(rest, sep)
        && |r| <= |rest|
        && rest[..|r|] == r
        && Find(r, sep).None?
        && (|r| == |rest| || OccursAt(rest, sep, |r|))
  {
    var sep := DecimalString(id) + "-";
    ChosenPiece(s, sep);
    var pieces := Split(s, sep);
    if |pieces| > 1 then pieces[1] else pieces[0]
  }
}
