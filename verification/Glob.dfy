/**
  The wildcard matcher behind every doctest filter.  `Matches` is the textbook
  recursive meaning of a pattern; `WildCmp` is the matcher of the test runner,
  which remembers only the most recent `*` and is proved to decide `Matches`.
 */
module Glob {
  import opened Common

  function ToLower(c: char): char {
    if 'A' <= c <= 'Z' then c + ' ' else c
  }

  predicate SameChar(w: char, c: char, caseSensitive: bool) {
    if caseSensitive then w == c else ToLower(w) == ToLower(c)
  }

  /** One pattern character other than `*` against one character. */
  predicate MatchesChar(w: char, c: char, caseSensitive: bool) {
    w == '?' || SameChar(w, c, caseSensitive)
  }

  /** `*` stands for any run of characters, `?` for any single one. */
  predicate Matches(wild: seq<char>, str: seq<char>, caseSensitive: bool)
    decreases |wild| + |str|
  {
    if wild == [] then str == []
    else if wild[0] == '*' then
      Matches(wild[1..], str, caseSensitive) || (str != [] && Matches(wild, str[1..], caseSensitive))
    else
      str != [] && MatchesChar(wild[0], str[0], caseSensitive) && Matches(wild[1..], str[1..], caseSensitive)
  }

  /** The character a `char*` at offset `i` points to; the terminator is the last readable one. */
  function At(s: CString, i: nat): (c: char)
    requires i <= |s|
    ensures c == '\0' <==> i == |s|
  {
    if i == |s| then '\0' else s[i]
  }

  /** `wild` holds no star and matches `str` character by character. */
  predicate Literally(wild: seq<char>, str: seq<char>, caseSensitive: bool) {
    && |wild| == |str|
    && forall i :: 0 <= i < |wild| ==> wild[i] != '*' && MatchesChar(wild[i], str[i], caseSensitive)
  }

  /** A pattern starting with a star matches exactly if the rest matches some suffix. */
  lemma {:induction false} StarIsSomeSuffix(wild: seq<char>, str: seq<char>, cs: bool)
    requires wild != [] && wild[0] == '*'
    ensures Matches(wild, str, cs) <==> exists j :: 0 <= j <= |str| && Matches(wild[1..], str[j..], cs)
    decreases |str|
  {
    assert str[0..] == str;
    if str != [] {
      StarIsSomeSuffix(wild, str[1..], cs);
      if Matches(wild, str[1..], cs) {
        var j :| 0 <= j <= |str[1..]| && Matches(wild[1..], str[1..][j..], cs);
        assert str[1..][j..] == str[j + 1..];
      }
      if j :| 0 < j <= |str| && Matches(wild[1..], str[j..], cs) {
        assert str[1..][j - 1..] == str[j..];
      }
    }
  }

  /** A star also absorbs any characters put in front. */
  lemma StarAbsorbs(wild: seq<char>, str: seq<char>, i: nat, j: nat, cs: bool)
    requires wild != [] && wild[0] == '*'
    requires i <= j <= |str|
    requires Matches(wild, str[j..], cs)
    ensures Matches(wild, str[i..], cs)
  {
    StarIsSomeSuffix(wild, str[j..], cs);
    var m :| 0 <= m <= |str[j..]| && Matches(wild[1..], str[j..][m..], cs);
    assert str[j..][m..] == str[i..][j - i + m..];
    StarIsSomeSuffix(wild, str[i..], cs);
  }

  lemma LiterallyCons(wild: seq<char>, str: seq<char>, cs: bool)
    requires |wild| == |str| > 0
    ensures Literally(wild, str, cs) <==>
            wild[0] != '*' && MatchesChar(wild[0], str[0], cs) && Literally(wild[1..], str[1..], cs)
  {
    var w, s := wild[1..], str[1..];
    assert forall i :: 0 < i < |wild| ==> wild[i] == w[i - 1] && str[i] == s[i - 1];
  }

  /** A star-free stretch of the pattern fixes the characters it consumes. */
  lemma {:induction false} StripLiteral(wild: seq<char>, n: nat, str: seq<char>, cs: bool)
    requires n <= |wild| && forall i :: 0 <= i < n ==> wild[i] != '*'
    ensures Matches(wild, str, cs) <==>
            n <= |str| && Literally(wild[..n], str[..n], cs) && Matches(wild[n..], str[n..], cs)
    decreases n
  {
    if n == 0 {
      assert wild[0..] == wild && str[0..] == str;
    } else if str != [] {
      StripLiteral(wild[1..], n - 1, str[1..], cs);
      assert wild[1..][n - 1..] == wild[n..];
      assert wild[..n][1..] == wild[1..][..n - 1];
      if n <= |str| {
        assert str[1..][n - 1..] == str[n..];
        assert str[..n][1..] == str[1..][..n - 1];
        LiterallyCons(wild[..n], str[..n], cs);
      }
    }
  }

  // ----- What single characters mean

  /** Equal, or the upper- and lower-case forms of one ASCII letter: 32 apart, capitals from 65 to 90. */
  predicate SameLetter(w: char, c: char) {
    || w == c
    || (65 <= w as int <= 90 && c as int == w as int + 32)
    || (65 <= c as int <= 90 && w as int == c as int + 32)
  }

  lemma CharactersMean(w: char, c: char)
    ensures SameChar(w, c, true) <==> w == c
    ensures SameChar(w, c, false) <==> SameLetter(w, c)
    ensures MatchesChar(w, c, true) ==> MatchesChar(w, c, false)
  {
  }

  /** A pattern without wildcards matches itself, and without case sensitivity its other spellings too. */
  lemma WithoutWildcards(wild: seq<char>, str: seq<char>)
    requires '*' !in wild && '?' !in wild
    ensures Matches(wild, str, true) <==> wild == str
    ensures Matches(wild, str, false) <==>
            |wild| == |str| && forall i :: 0 <= i < |wild| ==> SameLetter(wild[i], str[i])
  {
    hide SameChar, SameLetter;
    var n := |wild|;
    StripLiteral(wild, n, str, true);
    StripLiteral(wild, n, str, false);
    assert wild[n..] == [] && wild[..n] == wild;
    if n <= |str| {
      assert str[n..] == [] <==> n == |str|;
      assert n == |str| ==> str[..n] == str;
      forall i | 0 <= i < n
        ensures MatchesChar(wild[i], str[i], true) <==> wild[i] == str[i]
        ensures MatchesChar(wild[i], str[i], false) <==> SameLetter(wild[i], str[i])
      {
        CharactersMean(wild[i], str[i]);
      }
    }
  }

  /** `?` takes any one character. */
  lemma QuestionMark(wild: seq<char>, str: seq<char>, cs: bool)
    requires wild != [] && wild[0] == '?'
    ensures Matches(wild, str, cs) <==> str != [] && Matches(wild[1..], str[1..], cs)
  {
  }

  /** A match that heeds case is also one that does not. */
  lemma {:induction false} SensitiveIsInsensitive(wild: seq<char>, str: seq<char>)
    requires Matches(wild, str, true)
    ensures Matches(wild, str, false)
    decreases |wild| + |str|
  {
    if wild != [] {
      if wild[0] != '*' {
        CharactersMean(wild[0], str[0]);
        SensitiveIsInsensitive(wild[1..], str[1..]);
      } else if Matches(wild[1..], str, true) {
        SensitiveIsInsensitive(wild[1..], str);
      } else {
        SensitiveIsInsensitive(wild, str[1..]);
      }
    }
  }

  /**
    The bookkeeping of the second loop: the last star stands just before `mp`, the attempt
    under way began at `k`, and it has reached pattern position `w` and string position `i`.
   */
  predicate Attempt(wild: seq<char>, str: seq<char>, mp: int, k: int, w: int, i: int, cs: bool) {
    && 1 <= mp <= w <= |wild|
    && 0 <= k <= i <= |str|
    && wild[mp - 1] == '*'
    && i - k == w - mp
    && Literally(wild[mp..w], str[k..i], cs)
  }

  /** The attempt under way succeeds exactly if what is left of the pattern matches what is left of the string. */
  lemma AttemptGoesOn(wild: seq<char>, str: seq<char>, mp: int, k: int, w: int, i: int, cs: bool)
    requires Attempt(wild, str, mp, k, w, i, cs)
    ensures Matches(wild[mp..], str[k..], cs) <==> Matches(wild[w..], str[i..], cs)
  {
    var n := w - mp;
    forall j | 0 <= j < n ensures wild[mp..][j] != '*' {
      assert wild[mp..][j] == wild[mp..w][j];
    }
    StripLiteral(wild[mp..], n, str[k..], cs);
    assert wild[mp..][n..] == wild[w..] && str[k..][n..] == str[i..];
    assert wild[mp..][..n] == wild[mp..w] && str[k..][..n] == str[k..i];
  }

  /** A failed attempt moves the start of the next one by a single character. */
  lemma AttemptFails(wild: seq<char>, str: seq<char>, mp: int, k: int, w: int, i: int, cs: bool)
    requires Attempt(wild, str, mp, k, w, i, cs) && i < |str|
    requires !Matches(wild[w..], str[i..], cs)
    ensures Matches(wild[mp - 1..], str[k..], cs) <==> Matches(wild[mp - 1..], str[k + 1..], cs)
  {
    AttemptGoesOn(wild, str, mp, k, w, i, cs);
    assert wild[mp - 1..][1..] == wild[mp..] && str[k..][1..] == str[k + 1..];
  }

  /** Once another star is reached, earlier alternatives cannot help: the first star may be forgotten. */
  lemma ForgetEarlierStar(wild: seq<char>, str: seq<char>, mp: int, k: int, w: int, i: int, cs: bool)
    requires Attempt(wild, str, mp, k, w, i, cs)
    requires w < |wild| && wild[w] == '*'
    ensures Matches(wild[mp - 1..], str[k..], cs) <==> Matches(wild[w..], str[i..], cs)
  {
    hide Matches, Literally;
    AttemptGoesOn(wild, str, mp, k, w, i, cs);
    StarIsSomeSuffix(wild[mp - 1..], str[k..], cs);
    assert wild[mp - 1..][1..] == wild[mp..] && str[k..][0..] == str[k..];
    if Matches(wild[mp - 1..], str[k..], cs) {
      var j :| 0 <= j <= |str[k..]| && Matches(wild[mp..], str[k..][j..], cs);
      LaterAttempt(wild, str, mp, k, w, i, k + j, cs);
      StarAbsorbs(wild[w..], str, i, i + j, cs);
    }
  }

  /** An attempt that starts later at `j` must get past the same stretch of pattern. */
  lemma LaterAttempt(wild: seq<char>, str: seq<char>, mp: int, k: int, w: int, i: int, j: int, cs: bool)
    requires Attempt(wild, str, mp, k, w, i, cs)
    requires k <= j <= |str| && Matches(wild[mp..], str[k..][j - k..], cs)
    ensures i + (j - k) <= |str| && Matches(wild[w..], str[i + (j - k)..], cs)
  {
    var n := w - mp;
    assert str[k..][j - k..] == str[j..];
    forall x | 0 <= x < n ensures wild[mp..][x] != '*' {
      assert wild[mp..][x] == wild[mp..w][x];
    }
    StripLiteral(wild[mp..], n, str[j..], cs);
    assert wild[mp..][n..] == wild[w..] && str[j..][n..] == str[i + (j - k)..];
  }

  /** When the string is used up, only the attempt under way can still succeed. */
  lemma LastAttempt(wild: seq<char>, str: seq<char>, mp: int, k: int, w: int, cs: bool)
    requires Attempt(wild, str, mp, k, w, |str|, cs)
    ensures Matches(wild[mp - 1..], str[k..], cs) <==> Matches(wild[w..], [], cs)
  {
    hide Matches, Literally;
    AttemptGoesOn(wild, str, mp, k, w, |str|, cs);
    assert str[|str|..] == [];
    StarIsSomeSuffix(wild[mp - 1..], str[k..], cs);
    assert wild[mp - 1..][1..] == wild[mp..] && str[k..][0..] == str[k..];
    if Matches(wild[mp - 1..], str[k..], cs) {
      var j :| 0 <= j <= |str[k..]| && Matches(wild[mp..], str[k..][j..], cs);
      LaterAttempt(wild, str, mp, k, w, |str|, k + j, cs);
    }
  }

  /** A star just passed opens an attempt that has consumed nothing yet. */
  lemma AttemptStarts(wild: seq<char>, str: seq<char>, w: int, i: int, cs: bool)
    requires 1 <= w <= |wild| && 0 <= i <= |str| && wild[w - 1] == '*'
    ensures Attempt(wild, str, w, i, w, i, cs)
  {
  }

  /** Extending the attempt by one matching character. */
  lemma AttemptAdvances(wild: seq<char>, str: seq<char>, mp: int, k: int, w: int, i: int, cs: bool)
    requires Attempt(wild, str, mp, k, w, i, cs) && w < |wild| && i < |str|
    requires wild[w] != '*' && MatchesChar(wild[w], str[i], cs)
    ensures Attempt(wild, str, mp, k, w + 1, i + 1, cs)
  {
    assert wild[mp..w + 1] == wild[mp..w] + [wild[w]];
    assert str[k..i + 1] == str[k..i] + [str[i]];
  }

  // ----- The same facts about positions, as the loops use them

  /** What is left of the pattern from `w` on matches what is left of the string from `i` on. */
  predicate MatchesFrom(wild: seq<char>, w: nat, str: seq<char>, i: nat, cs: bool)
    requires w <= |wild| && i <= |str|
  {
    Matches(wild[w..], str[i..], cs)
  }

  lemma Ends(wild: CString, str: CString, cs: bool)
    ensures MatchesFrom(wild, 0, str, 0, cs) <==> Matches(wild, str, cs)
    ensures MatchesFrom(wild, |wild|, str, |str|, cs)
  {
    assert wild[0..] == wild && str[0..] == str && wild[|wild|..] == [] && str[|str|..] == [];
  }

  /** One character of the string against the pattern position `w`, unless a star stands there. */
  lemma OneStep(wild: CString, str: CString, w: nat, i: nat, cs: bool)
    requires w <= |wild| && i < |str| && At(wild, w) != '*'
    ensures SameChar(At(wild, w), str[i], cs) || At(wild, w) == '?' ==>
              && w < |wild| && MatchesChar(wild[w], str[i], cs)
              && (MatchesFrom(wild, w, str, i, cs) <==> MatchesFrom(wild, w + 1, str, i + 1, cs))
    ensures !(SameChar(At(wild, w), str[i], cs) || At(wild, w) == '?') ==> !MatchesFrom(wild, w, str, i, cs)
  {
    if w < |wild| {
      assert wild[w..][1..] == wild[w + 1..] && str[i..][1..] == str[i + 1..];
    }
  }

  /** A trailing star matches everything, and against the empty string stars may be dropped. */
  lemma TrailingStar(wild: CString, str: CString, w: nat, i: nat, cs: bool)
    requires w < |wild| && i <= |str| && wild[w] == '*'
    ensures w + 1 == |wild| ==> MatchesFrom(wild, w, str, i, cs)
    ensures i == |str| ==> (MatchesFrom(wild, w, str, i, cs) <==> MatchesFrom(wild, w + 1, str, i, cs))
  {
    assert wild[w..][1..] == wild[w + 1..];
    StarIsSomeSuffix(wild[w..], str[i..], cs);
    assert str[i..][|str| - i..] == [];
  }

  lemma EmptyString(wild: CString, w: nat, str: CString, cs: bool)
    requires w <= |wild| && At(wild, w) != '*'
    ensures MatchesFrom(wild, w, str, |str|, cs) <==> w == |wild|
  {
  }

  /** A first or another star is reached: from here on only it counts. */
  lemma StarReached(wild: CString, str: CString, mp: int, k: int, w: int, i: int, cs: bool)
    requires Attempt(wild, str, mp, k, w, i, cs) && w < |wild| && wild[w] == '*'
    ensures MatchesFrom(wild, mp - 1, str, k, cs) <==> MatchesFrom(wild, w, str, i, cs)
  {
    ForgetEarlierStar(wild, str, mp, k, w, i, cs);
  }

  lemma Backtrack(wild: CString, str: CString, mp: int, k: int, w: int, i: int, cs: bool)
    requires Attempt(wild, str, mp, k, w, i, cs) && i < |str| && !MatchesFrom(wild, w, str, i, cs)
    ensures MatchesFrom(wild, mp - 1, str, k, cs) <==> MatchesFrom(wild, mp - 1, str, k + 1, cs)
    ensures Attempt(wild, str, mp, k + 1, mp, k + 1, cs)
  {
    AttemptFails(wild, str, mp, k, w, i, cs);
  }

  lemma LastOne(wild: CString, str: CString, mp: int, k: int, w: int, cs: bool)
    requires Attempt(wild, str, mp, k, w, |str|, cs)
    ensures MatchesFrom(wild, mp - 1, str, k, cs) <==> MatchesFrom(wild, w, str, |str|, cs)
  {
    LastAttempt(wild, str, mp, k, w, cs);
    assert str[|str|..] == [];
  }

  /** `wildcmp`; `-1` is the null pointer. */
  method WildCmp(str: CString, wild: CString, caseSensitive: bool) returns (matched: bool)
    ensures matched <==> Matches(wild, str, caseSensitive)
  {
    hide Matches, MatchesFrom, MatchesChar, SameChar, Attempt;
    var cp, mp := -1, -1;
    var i, w := 0, 0;
    ghost var answer := Matches(wild, str, caseSensitive);
    Ends(wild, str, caseSensitive);

    while At(str, i) != '\0' && At(wild, w) != '*'
      invariant 0 <= i <= |str| && 0 <= w <= |wild|
      invariant answer <==> MatchesFrom(wild, w, str, i, caseSensitive)
      decreases |str| - i
    {
      OneStep(wild, str, w, i, caseSensitive);
      if !SameChar(At(wild, w), str[i], caseSensitive) && At(wild, w) != '?' {
        return false;
      }
      w, i := w + 1, i + 1;
    }

    while At(str, i) != '\0'
      invariant 0 <= i <= |str| && 0 <= w <= |wild|
      invariant mp == -1 ==> (answer <==> MatchesFrom(wild, w, str, i, caseSensitive))
      invariant mp == -1 ==> i == |str| || At(wild, w) == '*'
      invariant mp != -1 ==> 1 <= mp <= w && 1 <= cp <= i + 1
      invariant mp != -1 ==> Attempt(wild, str, mp, cp - 1, w, i, caseSensitive)
      invariant mp != -1 ==> (answer <==> MatchesFrom(wild, mp - 1, str, cp - 1, caseSensitive))
      decreases |wild| - mp, |str| + 1 - cp, |str| - i
    {
      if At(wild, w) == '*' {
        if mp != -1 {
          StarReached(wild, str, mp, cp - 1, w, i, caseSensitive);
        }
        TrailingStar(wild, str, w, i, caseSensitive);
        w := w + 1;
        if At(wild, w) == '\0' {
          return true;
        }
        mp := w;
        cp := i + 1;
        AttemptStarts(wild, str, w, i, caseSensitive);
      } else {
        OneStep(wild, str, w, i, caseSensitive);
        if SameChar(At(wild, w), str[i], caseSensitive) || At(wild, w) == '?' {
          AttemptAdvances(wild, str, mp, cp - 1, w, i, caseSensitive);
          w, i := w + 1, i + 1;
        } else {
          Backtrack(wild, str, mp, cp - 1, w, i, caseSensitive);
          w := mp;
          i := cp;
          cp := cp + 1;
        }
      }
    }

    if mp != -1 {
      LastOne(wild, str, mp, cp - 1, w, caseSensitive);
    }
    while At(wild, w) == '*'
      invariant 0 <= w <= |wild|
      invariant answer <==> MatchesFrom(wild, w, str, |str|, caseSensitive)
      decreases |wild| - w
    {
      TrailingStar(wild, str, w, |str|, caseSensitive);
      w := w + 1;
    }
    EmptyString(wild, w, str, caseSensitive);
    return At(wild, w) == '\0';
  }

  /** The meaning of a filter list: an empty list may be taken to accept every name. */
  ghost predicate Accepts(filters: seq<CString>, name: CString, matchEmpty: bool, caseSensitive: bool) {
    (filters == [] && matchEmpty) || exists i :: 0 <= i < |filters| && Matches(filters[i], name, caseSensitive)
  }

  /** Without filters everything passes the lists of what to take, and nothing is on those of what to leave out. */
  lemma WithoutFilters(name: CString, caseSensitive: bool)
    ensures Accepts([], name, true, caseSensitive) && !Accepts([], name, false, caseSensitive)
  {
  }

  method MatchesAny(name: CString, filters: seq<CString>, matchEmpty: bool, caseSensitive: bool)
    returns (accepted: bool)
    ensures accepted <==> Accepts(filters, name, matchEmpty, caseSensitive)
  {
    if |filters| == 0 && matchEmpty {
      return true;
    }
    for n := 0 to |filters|
      invariant forall i :: 0 <= i < n ==> !Matches(filters[i], name, caseSensitive)
    {
      var hit := WildCmp(name, filters[n], caseSensitive);
      if hit {
        return true;
      }
    }
    return false;
  }
}
