/**
 * The game-score service message: finding the scored game's title, and locating the
 * `{name}` and `{game}` placeholders of the localized template as argument ranges
 * ordered by position.
 */
module GameScoreFormat {
  import opened Wrappers
  import opened Telegram
  import opened Text

  /** An `NSRange` bound to argument `index`. */
  datatype ArgumentRange = ArgumentRange(index: int, location: nat, length: nat)

  const GamePlaceholder: string := "{game}"

  /** The title of the first game among `media`. */
  function FirstGame(media: seq<Media>): (r: Option<string>)
    ensures r.None? <==> forall i | 0 <= i < |media| :: !media[i].GameMedia?
    ensures r.Some? ==>
      exists i :: 0 <= i < |media| && media[i] == GameMedia(r.value) && forall j | 0 <= j < i :: !media[j].GameMedia?
  {
    if |media| == 0 then None
    else if media[0].GameMedia? then Some(media[0].gameTitle)
    else
      var r := FirstGame(media[1..]);
      assert forall i | 1 <= i < |media| :: media[i] == media[1..][i - 1];
      r
  }

  /** The game found through attribute `k`: the first game of its loaded reply target. */
  function AttributeGame(message: Message, k: nat): Option<string>
    requires k < |message.attributes|
  {
    match ReplyTarget(message, k)
    case Some(m) => FirstGame(m.media)
    case None => None
  }

  /**
   * The game title of a score message: the attributes are walked in order and the walk
   * stops at the first loaded reply target that holds a game.
   */
  function GameTitle(message: Message): (r: Option<string>)
    ensures r.None? <==> forall j | 0 <= j < |message.attributes| :: AttributeGame(message, j).None?
    ensures r.Some? ==> exists j :: 0 <= j < |message.attributes| && AttributeGame(message, j) == r &&
                                  forall j' | 0 <= j' < j :: AttributeGame(message, j').None?
  {
    GameTitleFrom(message, 0)
  }

  function GameTitleFrom(message: Message, k: nat): (r: Option<string>)
    requires k <= |message.attributes|
    ensures r.None? <==> forall j | k <= j < |message.attributes| :: AttributeGame(message, j).None?
    ensures r.Some? ==> exists j :: k <= j < |message.attributes| && AttributeGame(message, j) == r &&
                                  forall j' | k <= j' < j :: AttributeGame(message, j').None?
    decreases |message.attributes| - k
  {
    if k == |message.attributes| then None
    else
      match AttributeGame(message, k)
      case Some(title) => Some(title)
      case None => GameTitleFrom(message, k + 1)
  }

  predicate SortedByLocation(rs: seq<ArgumentRange>) {
    forall i, j | 0 <= i < j < |rs| :: rs[i].location <= rs[j].location
  }

  predicate StrictlySortedByLocation(rs: seq<ArgumentRange>) {
    forall i, j | 0 <= i < j < |rs| :: rs[i].location < rs[j].location
  }

  /** Inserts `x` before the first range that does not start before it. */
  function InsertByLocation(x: ArgumentRange, rs: seq<ArgumentRange>): seq<ArgumentRange> {
    if |rs| == 0 then [x]
    else if x.location <= rs[0].location then [x] + rs
    else [rs[0]] + InsertByLocation(x, rs[1..])
  }

  lemma {:induction false} InsertPermutes(x: ArgumentRange, rs: seq<ArgumentRange>)
    ensures multiset(InsertByLocation(x, rs)) == multiset(rs) + multiset{x}
  {
    if |rs| > 0 && rs[0].location < x.location {
      assert rs == [rs[0]] + rs[1..];
      InsertPermutes(x, rs[1..]);
    }
  }

  lemma {:induction false} InsertSorted(x: ArgumentRange, rs: seq<ArgumentRange>)
    requires SortedByLocation(rs)
    ensures SortedByLocation(InsertByLocation(x, rs))
  {
    if |rs| > 0 && rs[0].location < x.location {
      var tail := InsertByLocation(x, rs[1..]);
      InsertSorted(x, rs[1..]);
      InsertPermutes(x, rs[1..]);
      forall k | 0 <= k < |tail| ensures rs[0].location <= tail[k].location {
        assert tail[k] in multiset(rs[1..]) + multiset{x};
        if tail[k] != x {
          assert tail[k] in rs[1..];
        }
      }
    }
  }

  /** `ranges.sort(by: { $0.1.location < $1.1.location })`, as an insertion sort. */
  function SortByLocation(rs: seq<ArgumentRange>): (r: seq<ArgumentRange>)
    ensures SortedByLocation(r)
    ensures multiset(r) == multiset(rs)
  {
    if |rs| == 0 then []
    else
      var sortedTail := SortByLocation(rs[1..]);
      assert rs == [rs[0]] + rs[1..];
      InsertSorted(rs[0], sortedTail);
      InsertPermutes(rs[0], sortedTail);
      InsertByLocation(rs[0], sortedTail)
  }

  /**
   * A sequence strictly ordered by location is determined by its elements: every sort of
   * ranges with distinct locations returns the same sequence, so the unstable sort of the
   * Swift library and the insertion sort above agree.
   */
  lemma {:induction false} StrictlySortedUnique(a: seq<ArgumentRange>, b: seq<ArgumentRange>)
    requires StrictlySortedByLocation(a) && SortedByLocation(b)
    requires multiset(a) == multiset(b)
    ensures a == b
    decreases |a|
  {
    assert |b| == |multiset(b)| == |multiset(a)| == |a|;
    if |a| > 0 {
      HeadsAgree(a, b);
      MultisetTail(a);
      MultisetTail(b);
      StrictlySortedUnique(a[1..], b[1..]);
      assert a == [a[0]] + a[1..];
      assert b == [b[0]] + b[1..];
    }
  }

  /** The least range of a strictly ordered sequence heads every ordering of its elements. */
  lemma HeadsAgree(a: seq<ArgumentRange>, b: seq<ArgumentRange>)
    requires StrictlySortedByLocation(a) && SortedByLocation(b)
    requires multiset(a) == multiset(b) && |a| > 0 && |b| > 0
    ensures a[0] == b[0]
  {
    assert a[0] in multiset(b);
    var j :| 0 <= j < |b| && b[j] == a[0];
    assert b[0] in multiset(a);
    var i :| 0 <= i < |a| && a[i] == b[0];
    assert i == 0;
  }

  lemma MultisetTail(s: seq<ArgumentRange>)
    requires |s| > 0
    ensures multiset(s[1..]) == multiset(s) - multiset{s[0]}
  {
    assert s == [s[0]] + s[1..];
  }

  /** `{name}` and `{game}` cannot start at the same location. */
  lemma PlaceholdersApart(template: string, i: int)
    ensures !(OccursAt(template, NamePlaceholder, i) && OccursAt(template, GamePlaceholder, i))
  {
  }

  /** The range of the first occurrence of `placeholder`, bound to argument `index`, if any. */
  function PlaceholderRange(template: string, placeholder: string, index: int): seq<ArgumentRange> {
    match FindFirst(template, placeholder)
    case Some(location) => [ArgumentRange(index, location, |placeholder|)]
    case None => []
  }

  lemma PlaceholderRangeFacts(template: string, placeholder: string, index: int)
    requires |placeholder| > 0
    ensures |PlaceholderRange(template, placeholder, index)| <= 1
    ensures |PlaceholderRange(template, placeholder, index)| == 1 <==> Contains(template, placeholder)
    ensures |PlaceholderRange(template, placeholder, index)| == 1 ==>
      var r := PlaceholderRange(template, placeholder, index)[0];
      r.index == index && FirstOccurrenceRange(template, placeholder, r)
  {
  }

  /** The range of the first occurrence of `placeholder` in `template` is bound to `index`. */
  ghost predicate FirstOccurrenceRange(template: string, placeholder: string, r: ArgumentRange) {
    r.length == |placeholder| && OccursAt(template, placeholder, r.location) &&
    forall j | 0 <= j < r.location :: !OccursAt(template, placeholder, j)
  }

  /**
   * The argument ranges of a game-score template: one for `{name}` (argument 0) and one for
   * `{game}` (argument 1), each present exactly when its placeholder occurs, each at the
   * placeholder's first occurrence, in ascending order of location.
   */
  function PlaceholderRanges(template: string): (r: seq<ArgumentRange>)
    ensures StrictlySortedByLocation(r)
    ensures |r| <= 2
    ensures forall k | 0 <= k < |r| :: r[k].index == 0 || r[k].index == 1
    ensures (exists k | 0 <= k < |r| :: r[k].index == 0) <==> Contains(template, NamePlaceholder)
    ensures (exists k | 0 <= k < |r| :: r[k].index == 1) <==> Contains(template, GamePlaceholder)
    ensures forall k | 0 <= k < |r| && r[k].index == 0 :: FirstOccurrenceRange(template, NamePlaceholder, r[k])
    ensures forall k | 0 <= k < |r| && r[k].index == 1 :: FirstOccurrenceRange(template, GamePlaceholder, r[k])
  {
    var name := PlaceholderRange(template, NamePlaceholder, 0);
    var game := PlaceholderRange(template, GamePlaceholder, 1);
    var r := SortByLocation(name + game);
    RangesOfSortedPlaceholders(template, name, game, r);
    r
  }

  lemma RangesOfSortedPlaceholders(template: string, name: seq<ArgumentRange>, game: seq<ArgumentRange>, r: seq<ArgumentRange>)
    requires name == PlaceholderRange(template, NamePlaceholder, 0)
    requires game == PlaceholderRange(template, GamePlaceholder, 1)
    requires r == SortByLocation(name + game)
    ensures StrictlySortedByLocation(r)
    ensures |r| <= 2
    ensures forall k | 0 <= k < |r| :: r[k].index == 0 || r[k].index == 1
    ensures (exists k | 0 <= k < |r| :: r[k].index == 0) <==> Contains(template, NamePlaceholder)
    ensures (exists k | 0 <= k < |r| :: r[k].index == 1) <==> Contains(template, GamePlaceholder)
    ensures forall k | 0 <= k < |r| && r[k].index == 0 :: FirstOccurrenceRange(template, NamePlaceholder, r[k])
    ensures forall k | 0 <= k < |r| && r[k].index == 1 :: FirstOccurrenceRange(template, GamePlaceholder, r[k])
  {
    PlaceholderRangeFacts(template, NamePlaceholder, 0);
    PlaceholderRangeFacts(template, GamePlaceholder, 1);
    SortedPlaceholdersShape(template, name, game);
    var both := |name| == 1 && |game| == 1;
    if both {
      PlaceholdersApart(template, name[0].location);
    }
    assert both ==> name[0].location != game[0].location;
    RangesOfShape(template, name, game, r);
  }

  lemma SortedPlaceholdersShape(template: string, name: seq<ArgumentRange>, game: seq<ArgumentRange>)
    requires |name| <= 1 && |game| <= 1
    ensures SortByLocation(name + game) ==
      if |name| == 1 && |game| == 1 && game[0].location < name[0].location then game + name else name + game
  {
    if |name| == 1 && |game| == 1 {
      assert name == [name[0]] && game == [game[0]];
      SortTwo(name[0], game[0]);
    } else if |name| == 1 {
      assert name + game == name;
      SortOne(name);
    } else if |game| == 1 {
      assert name + game == game;
      SortOne(game);
    } else {
      assert name + game == [];
    }
  }

  lemma RangesOfShape(template: string, name: seq<ArgumentRange>, game: seq<ArgumentRange>, r: seq<ArgumentRange>)
    requires |name| <= 1 && |game| <= 1
    requires |name| == 1 <==> Contains(template, NamePlaceholder)
    requires |game| == 1 <==> Contains(template, GamePlaceholder)
    requires |name| == 1 ==> name[0].index == 0 && FirstOccurrenceRange(template, NamePlaceholder, name[0])
    requires |game| == 1 ==> game[0].index == 1 && FirstOccurrenceRange(template, GamePlaceholder, game[0])
    requires |name| == 1 && |game| == 1 ==> name[0].location != game[0].location
    requires r == if |name| == 1 && |game| == 1 && game[0].location < name[0].location then game + name else name + game
    ensures StrictlySortedByLocation(r)
    ensures |r| <= 2
    ensures forall k | 0 <= k < |r| :: r[k].index == 0 || r[k].index == 1
    ensures (exists k | 0 <= k < |r| :: r[k].index == 0) <==> Contains(template, NamePlaceholder)
    ensures (exists k | 0 <= k < |r| :: r[k].index == 1) <==> Contains(template, GamePlaceholder)
    ensures forall k | 0 <= k < |r| && r[k].index == 0 :: FirstOccurrenceRange(template, NamePlaceholder, r[k])
    ensures forall k | 0 <= k < |r| && r[k].index == 1 :: FirstOccurrenceRange(template, GamePlaceholder, r[k])
  {
    if |name| == 1 {
      assert r[if |game| == 1 && game[0].location < name[0].location then 1 else 0] == name[0];
    }
    if |game| == 1 {
      assert r[if |name| == 1 && game[0].location < name[0].location then 0 else |name|] == game[0];
    }
  }

  lemma SortOne(xs: seq<ArgumentRange>)
    requires |xs| == 1
    ensures SortByLocation(xs) == xs
  {
    assert xs[1..] == [];
  }

  lemma SortTwo(x: ArgumentRange, y: ArgumentRange)
    ensures SortByLocation([x] + [y]) == if y.location < x.location then [y] + [x] else [x] + [y]
  {
    assert ([x] + [y])[1..] == [y];
    SortOne([y]);
    assert SortByLocation([x] + [y]) == InsertByLocation(x, [y]);
    assert [y][1..] == [];
    assert InsertByLocation(x, [y]) == if x.location <= y.location then [x] + [y] else [y] + InsertByLocation(x, []);
  }
}
