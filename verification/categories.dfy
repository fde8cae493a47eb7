/** The grouping of the sport list into the sidebar's categories
    (`groupSportsByCategory`): every sport name is normalised to a key, the key
    is looked up in a fixed table of categories, and sports whose key no
    category lists fall into "And More". */
module Categories {
  import opened Wrappers
  import opened Text
  import opened Sorting

  /** One row of the category table: a heading and the keys it lists. */
  datatype Category = Category(name: string, keys: seq<string>)

  const SportCategories: seq<Category> := [
    Category("Top Sports",
      ["fussball", "tennis", "basketball", "handball", "american football", "eishockey", "darts"]),
    Category("Ball Sports",
      ["badminton", "beachhandball", "feldhockey", "floorball", "unihockey", "volleyball", "wasserball", "tischtennis"]),
    Category("Athletics & Endurance",
      ["leichtathletik", "marathon", "triathlon", "moderner funfkampf", "radsport"]),
    Category("Winter Sports",
      ["biathlon", "bobsport / skeleton", "curling", "eiskunstlauf", "eisschnelllauf", "freestyle-skiing",
       "rennrodeln", "shorttrack", "ski alpin", "ski nordisch", "skibergsteigen", "snowboard"]),
    Category("Combat & Precision",
      ["boxen", "fechten", "gewichtheben", "judo", "ringen", "bogenschiessen", "snooker"]),
    Category("Water & Outdoor",
      ["kanusport", "rudern", "reiten", "sportklettern", "schwimmsport"]),
    Category("Mind & Mixed",
      ["schach", "diverse", "multisportveranstaltung", "geratturnen", "rhythmische sportgymnastik", "trampolinturnen"])
  ]

  /** The group of every sport no category lists. */
  const FallbackCategory: string := "And More"

  ghost predicate Distinct<T>(s: seq<T>) {
    forall i, j :: 0 <= i < j < |s| ==> s[i] != s[j]
  }

  /** The order the groups are shown in: the table's headings, then "And More". */
  function CategoryOrder(): (order: seq<string>)
    ensures |order| == |SportCategories| + 1
    ensures order[|SportCategories|] == FallbackCategory
    ensures Distinct(order)
  {
    ["Top Sports", "Ball Sports", "Athletics & Endurance", "Winter Sports",
     "Combat & Precision", "Water & Outdoor", "Mind & Mixed", FallbackCategory]
  }

  lemma CategoryOrderNames()
    ensures forall i :: 0 <= i < |SportCategories| ==> CategoryOrder()[i] == SportCategories[i].name
  {
  }

  /** Runs of whitespace (`/\s+/g`) replaced by one space. */
  function CollapseSpaces(s: string): (r: string)
    ensures |r| == 0 <==> |s| == 0
    ensures |r| <= |s|
    ensures s != [] ==> (IsJsSpace(s[0]) <==> r[0] == ' ')
    ensures s != [] ==> (IsJsSpace(s[|s| - 1]) <==> r[|r| - 1] == ' ')
    ensures forall i :: 0 <= i < |r| ==> r[i] == ' ' || !IsJsSpace(r[i])
    ensures forall i :: 0 <= i < |r| - 1 ==> !(r[i] == ' ' && r[i + 1] == ' ')
    ensures forall c :: c in r && c != ' ' ==> c in s
  {
    assert IsJsSpace(' ');
    Collapse(s, IsJsSpace)
  }

  /** Runs of characters `ws` accepts replaced by one space, for any `ws` that accepts the space. */
  function Collapse(s: string, ws: char -> bool): (r: string)
    requires ws(' ')
    ensures |r| == 0 <==> |s| == 0
    ensures |r| <= |s|
    ensures s != [] ==> (ws(s[0]) <==> r[0] == ' ')
    ensures s != [] ==> (ws(s[|s| - 1]) <==> r[|r| - 1] == ' ')
    ensures forall i :: 0 <= i < |r| ==> r[i] == ' ' || !ws(r[i])
    ensures forall i :: 0 <= i < |r| - 1 ==> !(r[i] == ' ' && r[i + 1] == ' ')
    ensures forall c :: c in r && c != ' ' ==> c in s
    decreases |s|
  {
    if s == [] then []
    else if ws(s[0]) then
      var k := LeadingSpaces(s, ws);
      var rest := Collapse(s[k..], ws);
      assert forall c :: c in rest && c != ' ' ==> c in s;
      [' '] + rest
    else
      var rest := Collapse(s[1..], ws);
      assert forall c :: c in rest && c != ' ' ==> c in s;
      [s[0]] + rest
  }

  /** No upper-case letter, no whitespace but single spaces. */
  predicate SingleSpaced(k: string) {
    && (forall i :: 0 <= i < |k| ==> !('A' <= k[i] <= 'Z'))
    && (forall i :: 0 <= i < |k| ==> k[i] == ' ' || !IsJsSpace(k[i]))
    && (forall i :: 0 <= i < |k| - 1 ==> !(k[i] == ' ' && k[i + 1] == ' '))
  }

  /** A key in the shape `normalizeSportKey` produces: no upper-case letter, no
      whitespace but single inner spaces. */
  predicate NormalKey(k: string) {
    SingleSpaced(k) && (k == [] || (k[0] != ' ' && k[|k| - 1] != ' '))
  }

  /** `normalizeSportKey`: lower-cased, whitespace runs collapsed, trimmed
      (see README, "Left out", for the Unicode steps). */
  function NormalizeSportKey(value: string): (key: string)
    ensures NormalKey(key)
  {
    var lowered := Lower(value);
    TrimmedCollapseIsNormal(lowered);
    JsTrim(CollapseSpaces(lowered))
  }

  /** Collapsing and trimming a string with no upper-case letter gives a normal key. */
  lemma TrimmedCollapseIsNormal(s: string)
    requires forall i :: 0 <= i < |s| ==> !('A' <= s[i] <= 'Z')
    ensures NormalKey(JsTrim(CollapseSpaces(s)))
  {
    CollapseKeepsLower(s);
    TrimmedIsNormal(CollapseSpaces(s));
  }

  /** Trimming a single-spaced string gives a normal key. */
  lemma TrimmedIsNormal(c: string)
    requires SingleSpaced(c)
    ensures NormalKey(JsTrim(c))
  {
    TrimmedIsSingleSpaced(c);
    assert IsJsSpace(' ');
  }

  lemma TrimmedIsSingleSpaced(c: string)
    requires SingleSpaced(c)
    ensures SingleSpaced(JsTrim(c))
  {
    TrimKeepsShape(c, IsJsSpace);
  }

  /** Trimming, whatever it counts as whitespace, keeps a slice of a single-spaced string. */
  lemma TrimKeepsShape(c: string, ws: char -> bool)
    requires SingleSpaced(c)
    ensures SingleSpaced(Trim(c, ws))
  {
    TrimOuterSpace(c, ws);
    var a, b :| 0 <= a <= b <= |c| && Trim(c, ws) == c[a..b];
    SliceKeepsShape(c, a, b);
  }

  /** A slice of a single-spaced string is single-spaced. */
  lemma SliceKeepsShape(c: string, a: nat, b: nat)
    requires a <= b <= |c|
    requires SingleSpaced(c)
    ensures SingleSpaced(c[a..b])
  {
    SuffixKeepsShape(c, a);
    PrefixKeepsShape(c[a..], b - a);
    assert c[a..][..b - a] == c[a..b];
  }

  lemma CollapseKeepsLower(s: string)
    requires forall i :: 0 <= i < |s| ==> !('A' <= s[i] <= 'Z')
    ensures SingleSpaced(CollapseSpaces(s))
  {
    var c := CollapseSpaces(s);
    forall i | 0 <= i < |c|
      ensures !('A' <= c[i] <= 'Z')
    {
      if c[i] != ' ' {
        assert c[i] in c;
        var j :| 0 <= j < |s| && s[j] == c[i];
      }
    }
  }

  /** A suffix of a single-spaced string is single-spaced. */
  lemma SuffixKeepsShape(c: string, a: nat)
    requires a <= |c|
    requires SingleSpaced(c)
    ensures SingleSpaced(c[a..])
  {
    forall i | 0 <= i < |c| - a - 1
      ensures !(c[a..][i] == ' ' && c[a..][i + 1] == ' ')
    {
      assert c[a..][i] == c[a + i] && c[a..][i + 1] == c[a + i + 1];
    }
  }

  /** A prefix of a single-spaced string is single-spaced. */
  lemma PrefixKeepsShape(c: string, b: nat)
    requires b <= |c|
    requires SingleSpaced(c)
    ensures SingleSpaced(c[..b])
  {
  }

  lemma {:induction false} LowerIdempotent(s: string)
    ensures Lower(Lower(s)) == Lower(s)
  {
    assert forall i :: 0 <= i < |s| ==> LowerChar(LowerChar(s[i])) == LowerChar(s[i]);
  }

  /** A string with no upper-case letter is its own lower case. */
  lemma LowerOfLower(s: string)
    requires forall i :: 0 <= i < |s| ==> !('A' <= s[i] <= 'Z')
    ensures Lower(s) == s
  {
  }

  /** A string with single inner spaces only is its own collapse. */
  lemma CollapseOfCollapsed(s: string)
    requires SingleSpaced(s)
    ensures CollapseSpaces(s) == s
  {
    assert IsJsSpace(' ');
    CollapseFixesCollapsed(s, IsJsSpace);
  }

  /** A string whose only whitespace is single spaces is left as it is. */
  lemma {:induction false} CollapseFixesCollapsed(s: string, ws: char -> bool)
    requires ws(' ')
    requires forall i :: 0 <= i < |s| ==> s[i] == ' ' || !ws(s[i])
    requires forall i :: 0 <= i < |s| - 1 ==> !(s[i] == ' ' && s[i + 1] == ' ')
    ensures Collapse(s, ws) == s
    decreases |s|
  {
    if s != [] {
      if ws(s[0]) {
        assert |s| == 1 || !ws(s[1]);
        assert LeadingSpaces(s, ws) == 1;
      }
      CollapseFixesCollapsed(s[1..], ws);
    }
  }

  /** Normalising a normal key changes nothing, so normalising twice is normalising once. */
  lemma NormalizeNormalKey(key: string)
    requires NormalKey(key)
    ensures NormalizeSportKey(key) == key
  {
    LowerOfLower(key);
    CollapseOfCollapsed(key);
  }

  lemma NormalizeIdempotent(value: string)
    ensures NormalizeSportKey(NormalizeSportKey(value)) == NormalizeSportKey(value)
  {
    NormalizeNormalKey(NormalizeSportKey(value));
  }

  /** Names that differ only in letter case get the same key. */
  lemma NormalizeIgnoresCase(value: string)
    ensures NormalizeSportKey(Lower(value)) == NormalizeSportKey(value)
  {
    LowerIdempotent(value);
  }

  /** Category `j` lists `key` and no later one does. */
  predicate LastListed(key: string, table: seq<Category>, j: int) {
    0 <= j < |table| && key in table[j].keys && forall k :: j < k < |table| ==> key !in table[k].keys
  }

  /** `SPORT_CATEGORY_BY_KEY.get(key)`: the map is built from the table in order,
      so the last category that lists the key wins. */
  function LastListing(key: string, table: seq<Category>): (r: Option<nat>)
    ensures r.Some? ==> LastListed(key, table, r.value)
    ensures r.None? <==> forall j :: 0 <= j < |table| ==> key !in table[j].keys
  {
    if table == [] then None
    else if key in table[|table| - 1].keys then Some(|table| - 1)
    else LastListing(key, table[..|table| - 1])
  }

  /** `resolveSportCategory`: the heading of the category listing the sport's
      key, else "And More". */
  function ResolveCategory(sport: string): (category: string)
    ensures category in CategoryOrder()
  {
    CategoryOrderNames();
    match LastListing(NormalizeSportKey(sport), SportCategories)
    case Some(i) => SportCategories[i].name
    case None => FallbackCategory
  }

  /** A sport falls into "And More" exactly when no category lists its key, and
      otherwise into the last category that lists it. */
  lemma ResolveCategorySpec(sport: string)
    ensures ResolveCategory(sport) == FallbackCategory <==>
      forall j :: 0 <= j < |SportCategories| ==> NormalizeSportKey(sport) !in SportCategories[j].keys
    ensures forall j :: LastListed(NormalizeSportKey(sport), SportCategories, j) ==>
      ResolveCategory(sport) == SportCategories[j].name
  {
    CategoryOrderNames();
    var order := CategoryOrder();
    var r := LastListing(NormalizeSportKey(sport), SportCategories);
    if r.Some? {
      assert order[r.value] != order[|SportCategories|];
    }
  }

  /** Letter case does not change a sport's category. */
  lemma ResolveIgnoresCase(sport: string)
    ensures ResolveCategory(Lower(sport)) == ResolveCategory(sport)
  {
    NormalizeIgnoresCase(sport);
  }

  /** One heading and its sports, as shown in the sidebar. */
  datatype Group = Group(category: string, sports: seq<string>)

  /** The sports of `sports` that `resolve` puts in `category`, in list order:
      the array the first loop of `groupSportsByCategory` builds for it. */
  function Bucket(sports: seq<string>, category: string, resolve: string -> string): (b: seq<string>)
    ensures |b| <= |sports|
    ensures forall x :: x in b ==> x in sports && resolve(x) == category
  {
    if sports == [] then []
    else
      var last := sports[|sports| - 1];
      Bucket(sports[..|sports| - 1], category, resolve) + if resolve(last) == category then [last] else []
  }

  /** The group of one category, sorted without regard to case; none when it is empty. */
  function GroupFor(sports: seq<string>, category: string, resolve: string -> string): (groups: seq<Group>)
    ensures |groups| <= 1
    ensures forall g :: g in groups ==> g.category == category
  {
    var bucket := Bucket(sports, category, resolve);
    if bucket == [] then [] else [Group(category, SortBy(bucket, FoldLeq))]
  }

  /** The groups for the categories of `order`, in that order, leaving out the empty ones. */
  function GroupsOver(sports: seq<string>, order: seq<string>, resolve: string -> string): (groups: seq<Group>)
    ensures |groups| <= |order|
    ensures forall g :: g in groups ==> g.category in order
  {
    if order == [] then []
    else GroupsOver(sports, order[..|order| - 1], resolve) + GroupFor(sports, order[|order| - 1], resolve)
  }

  /** What `groupSportsByCategory(sports)` returns. */
  function Grouped(sports: seq<string>): (groups: seq<Group>)
    ensures |groups| <= |CategoryOrder()|
    ensures forall g :: g in groups ==> g.category in CategoryOrder()
  {
    GroupsOver(sports, CategoryOrder(), ResolveCategory)
  }

  /** The sports of all groups, one group after the other. */
  function Flatten(groups: seq<Group>): seq<string> {
    if groups == [] then [] else Flatten(groups[..|groups| - 1]) + groups[|groups| - 1].sports
  }

  /** `groupSportsByCategory` as written: a map from category to its array,
      filled in list order, then read out in table order, each array sorted
      without regard to case. */
  method GroupSportsByCategory(sports: seq<string>) returns (groups: seq<Group>)
    ensures groups == Grouped(sports)
  {
    var grouped := CollectBuckets(sports, ResolveCategory);
    var order := CategoryOrder();
    groups := [];
    for j := 0 to |order|
      invariant groups == GroupsOver(sports, order[..j], ResolveCategory)
    {
      PrefixSnoc(order, j);
      assert order[..j + 1][..j] == order[..j];
      var category := order[j];
      if category in grouped && grouped[category] != [] {
        var categorySports := SortBy(grouped[category], FoldLeq);
        groups := groups + [Group(category, categorySports)];
      }
    }
    PrefixAll(order);
  }

  /** The first loop of `groupSportsByCategory`: each sport pushed onto the
      array of its category, the array created on the category's first sport. */
  method CollectBuckets(sports: seq<string>, resolve: string -> string) returns (grouped: map<string, seq<string>>)
    ensures forall c :: c in grouped <==> Bucket(sports, c, resolve) != []
    ensures forall c :: c in grouped ==> grouped[c] == Bucket(sports, c, resolve)
  {
    grouped := map[];
    for i := 0 to |sports|
      invariant forall c :: c in grouped <==> Bucket(sports[..i], c, resolve) != []
      invariant forall c :: c in grouped ==> grouped[c] == Bucket(sports[..i], c, resolve)
    {
      PrefixSnoc(sports, i);
      assert sports[..i + 1][..i] == sports[..i];
      var category := resolve(sports[i]);
      if category !in grouped {
        grouped := grouped[category := []];
      }
      grouped := grouped[category := grouped[category] + [sports[i]]];
    }
    PrefixAll(sports);
  }

  /** A sport is counted in the bucket of its own category, as often as it occurs, and in no other. */
  lemma {:induction false} BucketCount(sports: seq<string>, category: string, resolve: string -> string, x: string)
    ensures multiset(Bucket(sports, category, resolve))[x] ==
      if resolve(x) == category then multiset(sports)[x] else 0
  {
    if sports != [] {
      var init := sports[..|sports| - 1];
      BucketCount(init, category, resolve, x);
      assert sports == init + [sports[|sports| - 1]];
    }
  }

  lemma {:induction false} FlattenAppend(a: seq<Group>, b: seq<Group>)
    ensures Flatten(a + b) == Flatten(a) + Flatten(b)
    decreases |b|
  {
    if b == [] {
      assert a + b == a;
    } else {
      var ab := a + b;
      assert ab[..|ab| - 1] == a + b[..|b| - 1];
      assert ab[|ab| - 1] == b[|b| - 1];
      FlattenAppend(a, b[..|b| - 1]);
    }
  }

  /** The group, if any, added for one category holds that category's bucket. */
  lemma GroupOfBucket(category: string, bucket: seq<string>)
    ensures multiset(Flatten(if bucket == [] then [] else [Group(category, SortBy(bucket, FoldLeq))])) == multiset(bucket)
  {
    if bucket != [] {
      var tail := [Group(category, SortBy(bucket, FoldLeq))];
      assert tail[..0] == [];
      assert Flatten(tail) == SortBy(bucket, FoldLeq);
    }
  }

  /** The group for one category holds each sport of that category, as often as it occurs. */
  lemma GroupForCount(sports: seq<string>, category: string, resolve: string -> string, x: string)
    ensures multiset(Flatten(GroupFor(sports, category, resolve)))[x] ==
      if resolve(x) == category then multiset(sports)[x] else 0
  {
    var bucket := Bucket(sports, category, resolve);
    BucketCount(sports, category, resolve, x);
    if bucket != [] {
      var tail := GroupFor(sports, category, resolve);
      assert tail[..0] == [];
      assert Flatten(tail) == SortBy(bucket, FoldLeq);
    }
  }

  /** The groups over `order` hold each sport whose category is in `order`, as often as it occurs. */
  lemma {:induction false} GroupsOverCount(sports: seq<string>, order: seq<string>, resolve: string -> string, x: string)
    requires Distinct(order)
    ensures multiset(Flatten(GroupsOver(sports, order, resolve)))[x] ==
      if resolve(x) in order then multiset(sports)[x] else 0
  {
    if order != [] {
      var init := order[..|order| - 1];
      var category := order[|order| - 1];
      GroupsOverCount(sports, init, resolve, x);
      FlattenAppend(GroupsOver(sports, init, resolve), GroupFor(sports, category, resolve));
      GroupForCount(sports, category, resolve, x);
      LastSplit(order);
      assert category !in init;
    }
  }

  /** Every sport of the list is in exactly one group, as often as it occurs in the list. */
  lemma GroupedPartition(sports: seq<string>)
    ensures multiset(Flatten(Grouped(sports))) == multiset(sports)
  {
    forall x
      ensures multiset(Flatten(Grouped(sports)))[x] == multiset(sports)[x]
    {
      GroupsOverCount(sports, CategoryOrder(), ResolveCategory, x);
    }
  }

  /** The first index at which `c` occurs in `order`. */
  function IndexOf(order: seq<string>, c: string): (k: nat)
    requires c in order
    ensures k < |order| && order[k] == c
    ensures forall j :: 0 <= j < k ==> order[j] != c
  {
    if order[0] == c then 0 else 1 + IndexOf(order[1..], c)
  }

  lemma {:induction false} IndexOfPrefix(order: seq<string>, c: string)
    requires order != [] && c in order[..|order| - 1]
    ensures IndexOf(order, c) == IndexOf(order[..|order| - 1], c)
  {
    var k := IndexOf(order[..|order| - 1], c);
    var m := IndexOf(order, c);
    assert order[k] == c;
    assert m <= k;
    assert order[..|order| - 1][m] == c;
  }

  /** The groups are non-empty, sorted without regard to case, hold only sports
      `resolve` puts in their category, and follow `order` with no category twice. */
  ghost predicate WellGrouped(groups: seq<Group>, order: seq<string>, resolve: string -> string) {
    && (forall i :: 0 <= i < |groups| ==> groups[i].category in order)
    && (forall i :: 0 <= i < |groups| ==> groups[i].sports != [])
    && (forall i :: 0 <= i < |groups| ==> Sorted(groups[i].sports, FoldLeq))
    && (forall i, x :: 0 <= i < |groups| && x in groups[i].sports ==> resolve(x) == groups[i].category)
    && (forall i, j :: 0 <= i < j < |groups| ==>
          IndexOf(order, groups[i].category) < IndexOf(order, groups[j].category))
  }

  lemma FoldLeqIsTotalPreorder()
    ensures TotalPreorder(FoldLeq)
  {
    forall a, b
      ensures FoldLeq(a, b) || FoldLeq(b, a)
    {
      FoldLeqTotalPreorder(a, b, b);
    }
    forall a, b, c | FoldLeq(a, b) && FoldLeq(b, c)
      ensures FoldLeq(a, c)
    {
      FoldLeqTotalPreorder(a, b, c);
    }
  }

  /** A category put at the end of `order` leaves the positions of the others as they were. */
  lemma ExtendOrder(prev: seq<Group>, init: seq<string>, category: string, resolve: string -> string)
    requires WellGrouped(prev, init, resolve)
    requires Distinct(init + [category])
    ensures WellGrouped(prev, init + [category], resolve)
    ensures forall i :: 0 <= i < |prev| ==> IndexOf(init + [category], prev[i].category) < |init|
  {
    var order := init + [category];
    assert order[..|order| - 1] == init;
    forall i | 0 <= i < |prev|
      ensures IndexOf(order, prev[i].category) == IndexOf(init, prev[i].category)
    {
      IndexOfPrefix(order, prev[i].category);
    }
  }

  /** The group added for the last category of `order` keeps the groups well formed. */
  lemma GroupsSnoc(prev: seq<Group>, init: seq<string>, category: string, bucket: seq<string>, resolve: string -> string)
    requires WellGrouped(prev, init, resolve)
    requires Distinct(init + [category])
    requires bucket != []
    requires forall x :: x in bucket ==> resolve(x) == category
    ensures WellGrouped(prev + [Group(category, SortBy(bucket, FoldLeq))], init + [category], resolve)
  {
    var order := init + [category];
    ExtendOrder(prev, init, category, resolve);
    var g := Group(category, SortBy(bucket, FoldLeq));
    FoldLeqIsTotalPreorder();
    SortBySorted(bucket, FoldLeq);
    forall x | x in g.sports
      ensures resolve(x) == category
    {
      assert x in multiset(g.sports);
    }
    IndexOfLast(init, category);
    AppendWellGrouped(prev, order, g, resolve);
  }

  /** A category at the end of a distinct order sits at the last index. */
  lemma IndexOfLast(init: seq<string>, category: string)
    requires Distinct(init + [category])
    ensures IndexOf(init + [category], category) == |init|
  {
    var order := init + [category];
    var k := IndexOf(order, category);
    assert order[|init|] == category;
  }

  /** A group whose category comes after all the others may be put at the end. */
  lemma AppendWellGrouped(prev: seq<Group>, order: seq<string>, g: Group, resolve: string -> string)
    requires WellGrouped(prev, order, resolve)
    requires g.category in order && g.sports != [] && Sorted(g.sports, FoldLeq)
    requires forall x :: x in g.sports ==> resolve(x) == g.category
    requires forall i :: 0 <= i < |prev| ==> IndexOf(order, prev[i].category) < IndexOf(order, g.category)
    ensures WellGrouped(prev + [g], order, resolve)
  {
    var all := prev + [g];
    assert forall i :: 0 <= i < |prev| ==> all[i] == prev[i];
    assert all[|prev|] == g;
  }

  lemma {:induction false} GroupsOverWellGrouped(sports: seq<string>, order: seq<string>, resolve: string -> string)
    requires Distinct(order)
    ensures WellGrouped(GroupsOver(sports, order, resolve), order, resolve)
  {
    if order != [] {
      var init := order[..|order| - 1];
      var category := order[|order| - 1];
      var bucket := Bucket(sports, category, resolve);
      GroupsOverWellGrouped(sports, init, resolve);
      LastSplit(order);
      if bucket != [] {
        GroupsSnoc(GroupsOver(sports, init, resolve), init, category, bucket, resolve);
      } else {
        ExtendOrder(GroupsOver(sports, init, resolve), init, category, resolve);
      }
    }
  }

  /** The shape of `groupSportsByCategory`'s result: no empty group, each group
      sorted and holding only its own category's sports, the groups in table
      order with "And More" last. */
  lemma GroupedWellFormed(sports: seq<string>)
    ensures WellGrouped(Grouped(sports), CategoryOrder(), ResolveCategory)
  {
    GroupsOverWellGrouped(sports, CategoryOrder(), ResolveCategory);
  }
}
