/**
 * The search `re.search("[sS]?(?P<season>\d{1,2})[-xXeE](?P<episode>\d{1,2})", base)`
 * used by `MovieFile.find_season_episode`, written out as the scan a
 * backtracking regex engine performs: start positions left to right, and at
 * each one the alternatives in the engine's order of preference.
 */
module SeasonEpisode {
  import opened Wrappers
  import opened PyText

  /** The character class `[-xXeE]` between season and episode. */
  predicate IsSeparator(c: char) { c == '-' || c == 'x' || c == 'X' || c == 'e' || c == 'E' }

  /** `n` decimal digits at offset `i`. */
  predicate DigitRun(s: string, i: nat, n: nat)
  {
    i + n <= |s| && forall k :: i <= k < i + n ==> IsDigit(s[k])
  }

  /**
   * How a match is laid out: whether the optional `[sS]` was taken (`prefix`
   * is 0 or 1) and how many digits each group took (1 or 2).
   */
  datatype Shape = Shape(prefix: nat, seasonLen: nat, episodeLen: nat)

  /** The whole pattern matches at offset `p` with the given layout. */
  predicate PatternAt(s: string, p: nat, t: Shape)
  {
    && t.prefix <= 1 && 1 <= t.seasonLen <= 2 && 1 <= t.episodeLen <= 2
    && (t.prefix == 1 ==> p < |s| && (s[p] == 's' || s[p] == 'S'))
    && DigitRun(s, p + t.prefix, t.seasonLen)
    && p + t.prefix + t.seasonLen < |s| && IsSeparator(s[p + t.prefix + t.seasonLen])
    && DigitRun(s, p + t.prefix + t.seasonLen + 1, t.episodeLen)
  }

  /**
   * The engine's order of preference among layouts: the greedy `?` first,
   * then the longer season, then the longer episode.
   */
  function Rank(t: Shape): int
  {
    4 * t.prefix + 2 * t.seasonLen + t.episodeLen
  }

  /** Season group of `seasonLen` digits, then the separator, then the episode group, greedy. */
  function WithSeason(s: string, p: nat, prefix: nat, seasonLen: nat): Option<Shape>
  {
    var q := p + prefix;
    if DigitRun(s, q, seasonLen) && q + seasonLen < |s| && IsSeparator(s[q + seasonLen]) then
      var e := q + seasonLen + 1;
      if DigitRun(s, e, 2) then Some(Shape(prefix, seasonLen, 2))
      else if DigitRun(s, e, 1) then Some(Shape(prefix, seasonLen, 1))
      else None
    else None
  }

  /** After the optional prefix: `\d{1,2}` tries two digits, then backtracks to one. */
  function AfterPrefix(s: string, p: nat, prefix: nat): Option<Shape>
  {
    match WithSeason(s, p, prefix, 2)
    case Some(t) => Some(t)
    case None => WithSeason(s, p, prefix, 1)
  }

  /** The match attempt at one start position: `[sS]?` tries to consume first, then to skip. */
  function MatchAt(s: string, p: nat): Option<Shape>
  {
    if p < |s| && (s[p] == 's' || s[p] == 'S') then
      match AfterPrefix(s, p, 1)
      case Some(t) => Some(t)
      case None => AfterPrefix(s, p, 0)
    else AfterPrefix(s, p, 0)
  }

  /** A match attempt succeeds with the most preferred layout that fits, and fails only when none fits. */
  lemma MatchAtCorrect(s: string, p: nat)
    ensures MatchAt(s, p).Some? ==> PatternAt(s, p, MatchAt(s, p).value)
    ensures MatchAt(s, p).Some? ==>
      forall t :: PatternAt(s, p, t) ==> Rank(t) <= Rank(MatchAt(s, p).value)
    ensures MatchAt(s, p).None? ==> forall t :: !PatternAt(s, p, t)
  {
    forall t | PatternAt(s, p, t)
      ensures MatchAt(s, p).Some? && Rank(t) <= Rank(MatchAt(s, p).value)
    {
      WithSeasonFinds(s, p, t);
    }
    if MatchAt(s, p).Some? {
      var t := MatchAt(s, p).value;
      if p < |s| && (s[p] == 's' || s[p] == 'S') && AfterPrefix(s, p, 1).Some? {
        WithSeasonSound(s, p, 1, 2);
        WithSeasonSound(s, p, 1, 1);
      } else {
        WithSeasonSound(s, p, 0, 2);
        WithSeasonSound(s, p, 0, 1);
      }
    }
  }

  lemma WithSeasonSound(s: string, p: nat, prefix: nat, seasonLen: nat)
    requires prefix <= 1 && 1 <= seasonLen <= 2
    requires prefix == 1 ==> p < |s| && (s[p] == 's' || s[p] == 'S')
    ensures WithSeason(s, p, prefix, seasonLen).Some? ==>
      var t := WithSeason(s, p, prefix, seasonLen).value;
      PatternAt(s, p, t) && t.prefix == prefix && t.seasonLen == seasonLen
  {
  }

  /** Any layout that fits is found, and the one found is preferred to it. */
  lemma WithSeasonFinds(s: string, p: nat, t: Shape)
    requires PatternAt(s, p, t)
    ensures MatchAt(s, p).Some? && Rank(t) <= Rank(MatchAt(s, p).value)
  {
    // a digit is never a separator, and the season group never starts with 's'
    assert forall c :: IsDigit(c) ==> !IsSeparator(c) && c != 's' && c != 'S';
    if DigitRun(s, p + t.prefix + t.seasonLen + 1, 2) {
      assert WithSeason(s, p, t.prefix, t.seasonLen).Some?;
    }
  }

  /** Where and how the search matched. */
  datatype Found = Found(start: nat, shape: Shape)

  /** `re.search`: the first start position, from `p` on, at which an attempt succeeds. */
  function SearchFrom(s: string, p: nat): (r: Option<Found>)
    requires p <= |s|
    ensures r.Some? ==> p <= r.value.start <= |s| && MatchAt(s, r.value.start) == Some(r.value.shape)
    ensures r.Some? ==> forall q :: p <= q < r.value.start ==> MatchAt(s, q).None?
    ensures r.None? ==> forall q :: p <= q <= |s| ==> MatchAt(s, q).None?
    decreases |s| - p
  {
    match MatchAt(s, p)
    case Some(t) => Some(Found(p, t))
    case None => if p == |s| then None else SearchFrom(s, p + 1)
  }

  function Search(s: string): Option<Found>
  {
    SearchFrom(s, 0)
  }

  /** The value of a one- or two-digit group. */
  function GroupValue(s: string, i: nat, n: nat): (v: nat)
    requires DigitRun(s, i, n)
  {
    DigitsValue(s[i..i + n])
  }

  /** `int(match.groupdict()['season'])` */
  function SeasonOf(s: string, f: Found): nat
    requires PatternAt(s, f.start, f.shape)
  {
    GroupValue(s, f.start + f.shape.prefix, f.shape.seasonLen)
  }

  /** `int(match.groupdict()['episode'])` */
  function EpisodeOf(s: string, f: Found): nat
    requires PatternAt(s, f.start, f.shape)
  {
    GroupValue(s, f.start + f.shape.prefix + f.shape.seasonLen + 1, f.shape.episodeLen)
  }

  /**
   * What `find_season_episode` reads from a base name: the season and episode
   * of the leftmost match, if there is one.
   */
  function Numbers(s: string): (r: Option<(nat, nat)>)
    ensures r.Some? <==> Search(s).Some?
    ensures r.Some? ==> r.value.0 <= 99 && r.value.1 <= 99
  {
    match Search(s)
    case Some(f) =>
      SearchFoundFits(s);
      Some((SeasonOf(s, f), EpisodeOf(s, f)))
    case None => None
  }

  /** A match found by the search fits the pattern, and both numbers read from it lie in 0..99. */
  lemma SearchFoundFits(s: string)
    requires Search(s).Some?
    ensures PatternAt(s, Search(s).value.start, Search(s).value.shape)
    ensures SeasonOf(s, Search(s).value) <= 99 && EpisodeOf(s, Search(s).value) <= 99
  {
    var f := Search(s).value;
    MatchAtCorrect(s, f.start);
    assert Pow10(2) == 100;
    DigitsValueBound(s[f.start + f.shape.prefix..f.start + f.shape.prefix + f.shape.seasonLen]);
    var e := f.start + f.shape.prefix + f.shape.seasonLen + 1;
    DigitsValueBound(s[e..e + f.shape.episodeLen]);
  }

  /**
   * The search is leftmost: a match starts at the first offset where the
   * pattern fits at all, in the preferred layout there; without a match the
   * pattern fits nowhere.
   */
  lemma SearchLeftmost(s: string)
    ensures Search(s).Some? ==>
      var f := Search(s).value;
      && (forall t :: PatternAt(s, f.start, t) ==> Rank(t) <= Rank(f.shape))
      && (forall q, t :: 0 <= q < f.start ==> !PatternAt(s, q, t))
    ensures Search(s).None? ==> forall q, t :: 0 <= q <= |s| ==> !PatternAt(s, q, t)
  {
    if Search(s).Some? {
      var f := Search(s).value;
      MatchAtCorrect(s, f.start);
      forall q, t | 0 <= q < f.start
        ensures !PatternAt(s, q, t)
      {
        MatchAtCorrect(s, q);
      }
    } else {
      forall q, t | 0 <= q <= |s|
        ensures !PatternAt(s, q, t)
      {
        MatchAtCorrect(s, q);
      }
    }
  }

  /** No attempt succeeds where neither of the next two characters is a digit. */
  lemma NoMatchWithoutDigit(s: string, q: nat)
    requires q < |s| && !IsDigit(s[q]) && (q + 1 < |s| ==> !IsDigit(s[q + 1]))
    ensures MatchAt(s, q).None?
  {
    MatchAtCorrect(s, q);
    PatternNeedsDigit(s, q);
  }

  /** The season group, right at the start or after the prefix letter, begins with a digit. */
  lemma PatternNeedsDigit(s: string, q: nat)
    ensures forall t :: PatternAt(s, q, t) ==> q + t.prefix < |s| && IsDigit(s[q + t.prefix])
  {
  }

  /** An attempt that fails hands the search on to the next offset. */
  lemma SearchSkips(s: string, p: nat)
    requires p < |s| && MatchAt(s, p).None?
    ensures SearchFrom(s, p) == SearchFrom(s, p + 1)
  {
  }

  lemma MatchS02E05(s: string)
    requires s == "Show.S02E05.mkv"
    ensures MatchAt(s, 5) == Some(Shape(1, 2, 2))
    ensures PatternAt(s, 5, Shape(1, 2, 2))
  {
    assert s[5] == 'S' && s[6] == '0' && s[7] == '2' && s[8] == 'E' && s[9] == '0' && s[10] == '5';
    assert WithSeason(s, 5, 1, 2) == Some(Shape(1, 2, 2));
  }

  /** "Show.S02E05.mkv" is season 2, episode 5: the match starts at the 'S' and takes two digits each. */
  lemma ShowS02E05(s: string)
    requires s == "Show.S02E05.mkv"
    ensures Search(s) == Some(Found(5, Shape(1, 2, 2)))
    ensures PatternAt(s, 5, Shape(1, 2, 2))
    ensures SeasonOf(s, Found(5, Shape(1, 2, 2))) == 2 && EpisodeOf(s, Found(5, Shape(1, 2, 2))) == 5
  {
    ShowS02E05Found(s);
    TwoDigitValue(s, 6);
    TwoDigitValue(s, 9);
  }

  /** The scan skips "Show." and matches at the 'S'. */
  lemma ShowS02E05Found(s: string)
    requires s == "Show.S02E05.mkv"
    ensures Search(s) == Some(Found(5, Shape(1, 2, 2)))
    ensures PatternAt(s, 5, Shape(1, 2, 2))
  {
    assert s[0] == 'S' && s[1] == 'h' && s[2] == 'o' && s[3] == 'w' && s[4] == '.' && s[5] == 'S';
    NoMatchWithoutDigit(s, 0);
    NoMatchWithoutDigit(s, 1);
    NoMatchWithoutDigit(s, 2);
    NoMatchWithoutDigit(s, 3);
    NoMatchWithoutDigit(s, 4);
    SearchSkips(s, 0);
    SearchSkips(s, 1);
    SearchSkips(s, 2);
    SearchSkips(s, 3);
    SearchSkips(s, 4);
    MatchS02E05(s);
  }

  /** The value of a two-digit group. */
  lemma TwoDigitValue(s: string, i: nat)
    requires DigitRun(s, i, 2)
    ensures GroupValue(s, i, 2) == 10 * (s[i] as int - '0' as int) + (s[i + 1] as int - '0' as int)
  {
    var g := s[i..i + 2];
    assert g[0] == s[i] && g[1] == s[i + 1];
    assert g[..1][..0] == [];
    assert DigitsValue(g[..1]) == g[0] as int - '0' as int;
  }

  /** A name without digits has no season/episode marker. */
  lemma NoDigitsNoMatch(s: string)
    requires forall i :: 0 <= i < |s| ==> !IsDigit(s[i])
    ensures Search(s).None?
  {
    if Search(s).Some? {
      SearchFoundFits(s);
    }
  }
}
