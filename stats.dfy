/**
  The summary cards of the management page: how many users (or posts) there
  are, how many of them are in each status, how many users are administrators,
  and the total number of views of all posts.
*/
module StatsHelpers {

  /** The fields of a user record that the statistics read. */
  datatype User = User(status: string, role: string)

  /** The fields of a post record that the statistics read; `views` is a whole number here. */
  datatype Post = Post(status: string, views: int)

  datatype Stat = Stat(caption: string, value: int)

  datatype StatsData = StatsData(total: nat, stat1: Stat, stat2: Stat, stat3: Stat, stat4: Stat)

  /** `xs.filter(p).length`, counted from the left as `filter` visits the elements. */
  function Count<T>(xs: seq<T>, p: T -> bool): (n: nat)
    ensures n <= |xs|
    decreases |xs|
  {
    if xs == [] then 0
    else Count(xs[..|xs| - 1], p) + (if p(xs[|xs| - 1]) then 1 else 0)
  }

  /** The positions of the elements that satisfy `p`. */
  ghost function Matching<T>(xs: seq<T>, p: T -> bool): set<int> {
    set i | 0 <= i < |xs| && p(xs[i])
  }

  /** The count is the number of positions whose element satisfies the predicate. */
  lemma {:induction false} CountIsCardinality<T>(xs: seq<T>, p: T -> bool)
    ensures Count(xs, p) == |Matching(xs, p)|
    decreases |xs|
  {
    if xs != [] {
      var n := |xs| - 1;
      var front := xs[..n];
      CountIsCardinality(front, p);
      assert Matching(front, p) == set i | 0 <= i < n && p(xs[i]);
      if p(xs[n]) {
        assert Matching(xs, p) == Matching(front, p) + {n};
        assert n !in Matching(front, p);
      } else {
        assert Matching(xs, p) == Matching(front, p);
      }
    }
  }

  /** Counting distributes over concatenation. */
  lemma {:induction false} CountAppend<T>(a: seq<T>, b: seq<T>, p: T -> bool)
    ensures Count(a + b, p) == Count(a, p) + Count(b, p)
    decreases |b|
  {
    if b != [] {
      var n := |b| - 1;
      assert (a + b)[..|a + b| - 1] == a + b[..n];
      assert (a + b)[|a + b| - 1] == b[n];
      CountAppend(a, b[..n], p);
    } else {
      assert a + b == a;
    }
  }

  /** Three predicates that never hold together count at most as many elements as there are. */
  lemma {:induction false} CountDisjoint<T>(xs: seq<T>, p: T -> bool, q: T -> bool, r: T -> bool)
    requires forall x :: !(p(x) && q(x)) && !(p(x) && r(x)) && !(q(x) && r(x))
    ensures Count(xs, p) + Count(xs, q) + Count(xs, r) <= |xs|
    decreases |xs|
  {
    if xs != [] {
      CountDisjoint(xs[..|xs| - 1], p, q, r);
    }
  }

  // ---------------------------------------------------------------------
  // Users
  // ---------------------------------------------------------------------

  predicate IsActive(u: User) { u.status == "active" }
  predicate IsInactive(u: User) { u.status == "inactive" }
  predicate IsSuspended(u: User) { u.status == "suspended" }
  predicate IsAdmin(u: User) { u.role == "admin" }

  function CalculateUserStats(users: seq<User>): (r: StatsData)
    ensures r.total == |users|
    ensures r.stat1 == Stat("활성", |set i | 0 <= i < |users| && users[i].status == "active"|)
    ensures r.stat2 == Stat("비활성", |set i | 0 <= i < |users| && users[i].status == "inactive"|)
    ensures r.stat3 == Stat("정지", |set i | 0 <= i < |users| && users[i].status == "suspended"|)
    ensures r.stat4 == Stat("관리자", |set i | 0 <= i < |users| && users[i].role == "admin"|)
    ensures 0 <= r.stat4.value <= r.total
  {
    CountIsCardinality(users, IsActive);
    CountIsCardinality(users, IsInactive);
    CountIsCardinality(users, IsSuspended);
    CountIsCardinality(users, IsAdmin);
    assert Matching(users, IsActive) == set i | 0 <= i < |users| && users[i].status == "active";
    assert Matching(users, IsInactive) == set i | 0 <= i < |users| && users[i].status == "inactive";
    assert Matching(users, IsSuspended) == set i | 0 <= i < |users| && users[i].status == "suspended";
    assert Matching(users, IsAdmin) == set i | 0 <= i < |users| && users[i].role == "admin";
    StatsData(
      |users|,
      Stat("활성", Count(users, IsActive)),
      Stat("비활성", Count(users, IsInactive)),
      Stat("정지", Count(users, IsSuspended)),
      Stat("관리자", Count(users, IsAdmin)))
  }

  /** The three status counts never exceed the number of users, since a user has one status. */
  lemma UserStatusCountsBounded(users: seq<User>)
    ensures var r := CalculateUserStats(users);
      r.stat1.value + r.stat2.value + r.stat3.value <= r.total
  {
    CountIsCardinality(users, IsActive);
    CountIsCardinality(users, IsInactive);
    CountIsCardinality(users, IsSuspended);
    CountDisjoint(users, IsActive, IsInactive, IsSuspended);
  }

  // ---------------------------------------------------------------------
  // Posts
  // ---------------------------------------------------------------------

  predicate IsPublished(p: Post) { p.status == "published" }
  predicate IsDraft(p: Post) { p.status == "draft" }
  predicate IsArchived(p: Post) { p.status == "archived" }

  /** `posts.reduce((sum, p) => sum + p.views, 0)`: a left fold from 0. */
  function SumViews(posts: seq<Post>): (total: int)
    ensures |posts| == 1 ==> total == posts[0].views
    ensures (forall i :: 0 <= i < |posts| ==> posts[i].views == 0) ==> total == 0
    decreases |posts|
  {
    if posts == [] then 0 else SumViews(posts[..|posts| - 1]) + posts[|posts| - 1].views
  }

  /** The view total of a concatenation is the sum of the view totals. */
  lemma {:induction false} SumViewsAppend(a: seq<Post>, b: seq<Post>)
    ensures SumViews(a + b) == SumViews(a) + SumViews(b)
    decreases |b|
  {
    if b != [] {
      var n := |b| - 1;
      assert (a + b)[..|a + b| - 1] == a + b[..n];
      assert (a + b)[|a + b| - 1] == b[n];
      SumViewsAppend(a, b[..n]);
    } else {
      assert a + b == a;
    }
  }

  /** With no negative view counts, the total is at least the views of any single post. */
  lemma {:induction false} SumViewsBoundsEach(posts: seq<Post>, k: int)
    requires forall i :: 0 <= i < |posts| ==> posts[i].views >= 0
    requires 0 <= k < |posts|
    ensures 0 <= posts[k].views <= SumViews(posts)
    decreases |posts|
  {
    var n := |posts| - 1;
    SumViewsNonNegative(posts[..n]);
    if k < n {
      SumViewsBoundsEach(posts[..n], k);
    }
  }

  lemma {:induction false} SumViewsNonNegative(posts: seq<Post>)
    requires forall i :: 0 <= i < |posts| ==> posts[i].views >= 0
    ensures SumViews(posts) >= 0
    decreases |posts|
  {
    if posts != [] {
      SumViewsNonNegative(posts[..|posts| - 1]);
    }
  }

  function CalculatePostStats(posts: seq<Post>): (r: StatsData)
    ensures r.total == |posts|
    ensures r.stat1 == Stat("게시됨", |set i | 0 <= i < |posts| && posts[i].status == "published"|)
    ensures r.stat2 == Stat("임시저장", |set i | 0 <= i < |posts| && posts[i].status == "draft"|)
    ensures r.stat3 == Stat("보관됨", |set i | 0 <= i < |posts| && posts[i].status == "archived"|)
    ensures r.stat4.caption == "총 조회수"
    ensures r.stat4.value == SumViews(posts)
    ensures posts == [] ==> r.stat4.value == 0
    ensures |posts| == 1 ==> r.stat4.value == posts[0].views
  {
    CountIsCardinality(posts, IsPublished);
    CountIsCardinality(posts, IsDraft);
    CountIsCardinality(posts, IsArchived);
    assert Matching(posts, IsPublished) == set i | 0 <= i < |posts| && posts[i].status == "published";
    assert Matching(posts, IsDraft) == set i | 0 <= i < |posts| && posts[i].status == "draft";
    assert Matching(posts, IsArchived) == set i | 0 <= i < |posts| && posts[i].status == "archived";
    StatsData(
      |posts|,
      Stat("게시됨", Count(posts, IsPublished)),
      Stat("임시저장", Count(posts, IsDraft)),
      Stat("보관됨", Count(posts, IsArchived)),
      Stat("총 조회수", SumViews(posts)))
  }

  /** The three status counts never exceed the number of posts. */
  lemma PostStatusCountsBounded(posts: seq<Post>)
    ensures var r := CalculatePostStats(posts);
      r.stat1.value + r.stat2.value + r.stat3.value <= r.total
  {
    CountIsCardinality(posts, IsPublished);
    CountIsCardinality(posts, IsDraft);
    CountIsCardinality(posts, IsArchived);
    CountDisjoint(posts, IsPublished, IsDraft, IsArchived);
  }

  /** The view total of two lists of posts side by side is the sum of their view totals. */
  lemma PostViewsAdditive(a: seq<Post>, b: seq<Post>)
    ensures CalculatePostStats(a + b).stat4.value ==
            CalculatePostStats(a).stat4.value + CalculatePostStats(b).stat4.value
  {
    SumViewsAppend(a, b);
  }
}
