/** The store (backend/src/db.rs): four tables (users, admins, posts, votes)
    and a SERIAL sequence per table with an id column. Every SQL statement the
    source issues becomes a reader function over the tables or a method that
    reassigns them. Rows stay in insertion order; where SQL leaves the order
    open, that order is the one the model picks. */
module Db {

  import opened Lib
  import opened Seqs
  import opened Errors
  import opened Records
  import opened UserModel
  import Ranking

  /** A row of the users table (`password` holds the argon2 hash). */
  datatype UserRow = UserRow(id: i32, email: string, password: string, isBanned: bool)

  function UserKey(u: UserRow): int { u.id }
  function PostKey(p: Post): int { p.id.value }
  function VoteKey(v: Vote): int { v.id.value }

  const USER_CREATED := "User created successfully!"

  /** What the database answers when a SERIAL sequence has no value left. */
  function SequenceExhausted(sequence: string): DbError {
    Rejected("nextval: reached maximum value of sequence \"" + sequence + "\" (2147483647)")
  }

  /** The votes table's post_id column, the input of the GROUP BY. */
  function PostIdColumn(votes: seq<Vote>): (column: seq<int>)
    ensures |column| == |votes|
    ensures forall i :: 0 <= i < |votes| ==> column[i] == votes[i].postId.value
  {
    seq(|votes|, i requires 0 <= i < |votes| => votes[i].postId.value as int)
  }

  /** `posts INNER JOIN votes ON posts.id = votes.post_id WHERE user_id = $1`:
      one (post, vote) row per vote of the user whose post exists. */
  function VotedPostRows(posts: seq<Post>, votes: seq<Vote>, userId: i32): (rows: seq<(Post, Vote)>)
    ensures forall row :: row in rows <==>
      row.0 in posts && row.1 in votes && row.1.userId == userId && row.0.id == row.1.postId
  {
    if votes == [] then []
    else
      (if votes[0].userId == userId then PostsOfVote(posts, votes[0]) else [])
      + VotedPostRows(posts, votes[1..], userId)
  }

  function PostsOfVote(posts: seq<Post>, vote: Vote): (rows: seq<(Post, Vote)>)
    ensures forall row :: row in rows <==> row.0 in posts && row.1 == vote && row.0.id == vote.postId
  {
    if posts == [] then []
    else
      (if posts[0].id == vote.postId then [(posts[0], vote)] else [])
      + PostsOfVote(posts[1..], vote)
  }

  /** The post columns of joined rows. */
  function PostsOf(rows: seq<(Post, Vote)>): (r: seq<Post>)
    ensures |r| == |rows|
    ensures forall i :: 0 <= i < |rows| ==> r[i] == rows[i].0
  {
    seq(|rows|, i requires 0 <= i < |rows| => rows[i].0)
  }

  lemma PostsOfMembership(rows: seq<(Post, Vote)>)
    ensures forall p :: p in PostsOf(rows) <==> exists v :: (p, v) in rows
  {
    var r := PostsOf(rows);
    forall p | p in r ensures exists v :: (p, v) in rows {
      var i :| 0 <= i < |r| && r[i] == p;
      assert rows[i] == (p, rows[i].1);
    }
    forall p, v | (p, v) in rows ensures p in r {
      var i :| 0 <= i < |rows| && rows[i] == (p, v);
      assert r[i] == p;
    }
  }

  /** The posts a user voted for, one per vote: the join's post columns. */
  function UserPosts(posts: seq<Post>, votes: seq<Vote>, userId: i32): (r: seq<Post>)
    ensures forall p :: p in r <==> p in posts && exists v :: v in votes && v.userId == userId && v.postId == p.id
  {
    UserPostsMembership(posts, votes, userId);
    PostsOf(VotedPostRows(posts, votes, userId))
  }

  lemma UserPostsMembership(posts: seq<Post>, votes: seq<Vote>, userId: i32)
    ensures forall p :: p in PostsOf(VotedPostRows(posts, votes, userId)) <==>
      p in posts && exists v :: v in votes && v.userId == userId && v.postId == p.id
  {
    var rows := VotedPostRows(posts, votes, userId);
    PostsOfMembership(rows);
    forall p | p in PostsOf(rows) ensures p in posts && exists v :: v in votes && v.userId == userId && v.postId == p.id {
      var v :| (p, v) in rows;
    }
    forall p, v | p in posts && v in votes && v.userId == userId && v.postId == p.id ensures p in PostsOf(rows) {
      assert (p, v) in rows;
    }
  }

  /** How many votes the user cast on the post. */
  function UserVotesOn(votes: seq<Vote>, userId: i32, postId: PostId): nat {
    if votes == [] then 0
    else (if votes[0].userId == userId && votes[0].postId == postId then 1 else 0) + UserVotesOn(votes[1..], userId, postId)
  }

  /** How many times the post occurs in the sequence. */
  function Occurrences(s: seq<Post>, p: Post): nat {
    if s == [] then 0 else (if s[0] == p then 1 else 0) + Occurrences(s[1..], p)
  }

  lemma {:induction false} OccurrencesAppend(a: seq<Post>, b: seq<Post>, p: Post)
    ensures Occurrences(a + b, p) == Occurrences(a, p) + Occurrences(b, p)
  {
    if a != [] {
      assert (a + b)[1..] == a[1..] + b;
      OccurrencesAppend(a[1..], b, p);
    } else {
      assert a + b == b;
    }
  }

  lemma PostsOfAppend(a: seq<(Post, Vote)>, b: seq<(Post, Vote)>)
    ensures PostsOf(a + b) == PostsOf(a) + PostsOf(b)
  {
  }

  lemma JoinedOccurrencesAppend(a: seq<(Post, Vote)>, b: seq<(Post, Vote)>, p: Post)
    ensures Occurrences(PostsOf(a + b), p) == Occurrences(PostsOf(a), p) + Occurrences(PostsOf(b), p)
  {
    PostsOfAppend(a, b);
    OccurrencesAppend(PostsOf(a), PostsOf(b), p);
  }

  lemma PostsOfVoteUnfold(posts: seq<Post>, vote: Vote)
    requires posts != []
    ensures PostsOfVote(posts, vote) ==
      (if posts[0].id == vote.postId then [(posts[0], vote)] else []) + PostsOfVote(posts[1..], vote)
  {
  }

  lemma {:induction false} PostsOfVoteCount(posts: seq<Post>, vote: Vote, p: Post)
    ensures Occurrences(PostsOf(PostsOfVote(posts, vote)), p) == if p.id == vote.postId then Occurrences(posts, p) else 0
  {
    if posts != [] {
      var head := if posts[0].id == vote.postId then [(posts[0], vote)] else [];
      PostsOfVoteUnfold(posts, vote);
      JoinedOccurrencesAppend(head, PostsOfVote(posts[1..], vote), p);
      PostsOfVoteCount(posts[1..], vote, p);
      if head != [] {
        assert PostsOf(head) == [posts[0]];
      }
    } else {
      assert PostsOfVote(posts, vote) == [];
    }
  }

  lemma VotedPostRowsUnfold(posts: seq<Post>, votes: seq<Vote>, userId: i32)
    requires votes != []
    ensures VotedPostRows(posts, votes, userId) ==
      (if votes[0].userId == userId then PostsOfVote(posts, votes[0]) else []) + VotedPostRows(posts, votes[1..], userId)
  {
  }

  lemma AddOneVote(n: nat, c: nat, k: nat, h: nat)
    requires c <= 1 && h == if c == 1 then n else 0
    ensures h + n * k == n * (c + k)
  {
  }

  lemma {:induction false} JoinedPostCount(posts: seq<Post>, votes: seq<Vote>, userId: i32, p: Post)
    ensures Occurrences(PostsOf(VotedPostRows(posts, votes, userId)), p) == Occurrences(posts, p) * UserVotesOn(votes, userId, p.id)
  {
    if votes != [] {
      var head := if votes[0].userId == userId then PostsOfVote(posts, votes[0]) else [];
      var tail := VotedPostRows(posts, votes[1..], userId);
      VotedPostRowsUnfold(posts, votes, userId);
      JoinedOccurrencesAppend(head, tail, p);
      JoinedPostCount(posts, votes[1..], userId, p);
      var c := if votes[0].userId == userId && votes[0].postId == p.id then 1 else 0;
      if votes[0].userId == userId {
        PostsOfVoteCount(posts, votes[0], p);
      } else {
        assert PostsOf(head) == [];
      }
      AddOneVote(Occurrences(posts, p), c, UserVotesOn(votes[1..], userId, p.id), Occurrences(PostsOf(head), p));
    } else {
      assert PostsOf(VotedPostRows(posts, votes, userId)) == [];
    }
  }

  /** The join returns one row per vote, so a post appears once for each
      time it is stored and each vote the user cast on it. */
  lemma UserPostsCounts(posts: seq<Post>, votes: seq<Vote>, userId: i32, p: Post)
    ensures Occurrences(UserPosts(posts, votes, userId), p) == Occurrences(posts, p) * UserVotesOn(votes, userId, p.id)
  {
    JoinedPostCount(posts, votes, userId, p);
  }

  /** `get_user_posts_by_id` as written: the join is read with `row.get("id")`,
      and of the two columns named "id" (posts.id, then votes.id) sqlx's
      by-name lookup finds the last, so each post carries its vote's id. */
  function UserPostsAsWritten(posts: seq<Post>, votes: seq<Vote>, userId: i32): (r: seq<Post>)
    ensures |r| == |UserPosts(posts, votes, userId)|
    ensures forall q :: q in r <==> exists p, v :: && p in posts && v in votes && v.userId == userId
                                                  && v.postId == p.id && q == p.(id := DbId(v.id.value))
  {
    var rows := VotedPostRows(posts, votes, userId);
    var r := seq(|rows|, i requires 0 <= i < |rows| => rows[i].0.(id := DbId(rows[i].1.id.value)));
    assert forall q :: q in r <==> exists p, v :: && p in posts && v in votes && v.userId == userId
                                                && v.postId == p.id && q == p.(id := DbId(v.id.value)) by {
      forall q | q in r ensures exists p, v :: && p in posts && v in votes && v.userId == userId
                                              && v.postId == p.id && q == p.(id := DbId(v.id.value)) {
        var i :| 0 <= i < |r| && r[i] == q;
        assert rows[i] in rows;
      }
      forall p, v | p in posts && v in votes && v.userId == userId && v.postId == p.id
        ensures p.(id := DbId(v.id.value)) in r {
        assert (p, v) in rows;
        var i :| 0 <= i < |rows| && rows[i] == (p, v);
        assert r[i] == p.(id := DbId(v.id.value));
      }
    }
    r
  }

  /** Every joined vote has the same number as its post. */
  ghost predicate JoinedIdsAgree(posts: seq<Post>, votes: seq<Vote>, userId: i32) {
    forall p, v :: p in posts && v in votes && v.userId == userId && v.postId == p.id ==> v.id.value == v.postId.value
  }

  lemma AsWrittenAgreesWhenIdsAgree(posts: seq<Post>, votes: seq<Vote>, userId: i32)
    requires JoinedIdsAgree(posts, votes, userId)
    ensures UserPostsAsWritten(posts, votes, userId) == UserPosts(posts, votes, userId)
  {
    var rows := VotedPostRows(posts, votes, userId);
    var a := UserPostsAsWritten(posts, votes, userId);
    var b := UserPosts(posts, votes, userId);
    assert b == PostsOf(rows);
    forall i | 0 <= i < |a| ensures a[i] == b[i] {
      assert a[i] == rows[i].0.(id := DbId(rows[i].1.id.value));
      assert rows[i] in rows;
    }
  }

  lemma IdsAgreeWhenAsWrittenAgrees(posts: seq<Post>, votes: seq<Vote>, userId: i32)
    requires UserPostsAsWritten(posts, votes, userId) == UserPosts(posts, votes, userId)
    ensures JoinedIdsAgree(posts, votes, userId)
  {
    var rows := VotedPostRows(posts, votes, userId);
    var a := UserPostsAsWritten(posts, votes, userId);
    var b := UserPosts(posts, votes, userId);
    assert b == PostsOf(rows);
    forall p, v | p in posts && v in votes && v.userId == userId && v.postId == p.id
      ensures v.id.value == v.postId.value {
      assert (p, v) in rows;
      var i :| 0 <= i < |rows| && rows[i] == (p, v);
      assert a[i] == p.(id := DbId(v.id.value));
      assert a[i] == b[i];
    }
  }

  /** The source's answer is the right one exactly when every vote it joins
      happens to have the same number as its post. */
  lemma UserPostsAsWrittenAgreesExactlyWhen(posts: seq<Post>, votes: seq<Vote>, userId: i32)
    ensures UserPostsAsWritten(posts, votes, userId) == UserPosts(posts, votes, userId) <==>
      forall p, v :: p in posts && v in votes && v.userId == userId && v.postId == p.id ==> v.id.value == v.postId.value
  {
    if JoinedIdsAgree(posts, votes, userId) {
      AsWrittenAgreesWhenIdsAgree(posts, votes, userId);
    }
    if UserPostsAsWritten(posts, votes, userId) == UserPosts(posts, votes, userId) {
      IdsAgreeWhenAsWrittenAgrees(posts, votes, userId);
    }
  }

  /** A user who voted (vote 2) for post 1 gets back a post numbered 2: a post
      that does not exist. */
  lemma UserPostsAsWrittenMislabelsIds()
    ensures var post := Post(DbId(1), "Title", "2023-01-01", "Text", "url", "2023-01-01");
      var votes := [Vote(DbId(2), DbId(1), 7)];
      && UserPosts([post], votes, 7) == [post]
      && UserPostsAsWritten([post], votes, 7) == [post.(id := DbId(2))]
      && UserPostsAsWritten([post], votes, 7)[0].id !in {post.id}
  {
    var post := Post(DbId(1), "Title", "2023-01-01", "Text", "url", "2023-01-01");
    var votes := [Vote(DbId(2), DbId(1), 7)];
    assert PostsOfVote([post], votes[0]) == [(post, votes[0])];
    assert VotedPostRows([post], votes[1..], 7) == [];
    assert VotedPostRows([post], votes, 7) == [(post, votes[0])];
  }

  /** A SERIAL id names at most one row, so a join on it matches at most once. */
  lemma {:induction false} SerialIdMatchesOnce(posts: seq<Post>, postId: int, next: int)
    requires Serial(posts, PostKey, next)
    ensures |Filter(posts, (p: Post) => p.id.value == postId)| == if exists i :: 0 <= i < |posts| && posts[i].id.value == postId then 1 else 0
  {
    if posts != [] {
      TailKeepsSerial(posts, PostKey, next);
      SerialIdMatchesOnce(posts[1..], postId, next);
      var keep := (p: Post) => p.id.value == postId;
      assert Filter(posts, keep) == (if keep(posts[0]) then [posts[0]] else []) + Filter(posts[1..], keep);
      if keep(posts[0]) {
        forall i | 0 <= i < |posts[1..]| ensures posts[1..][i].id.value != postId {
          assert posts[1..][i] == posts[i + 1];
          assert IdAt(posts, PostKey, 0) < IdAt(posts, PostKey, i + 1);
        }
      } else {
        if exists i :: 0 <= i < |posts| && posts[i].id.value == postId {
          var i :| 0 <= i < |posts| && posts[i].id.value == postId;
          assert posts[1..][i - 1] == posts[i];
        }
      }
    }
  }

  /** The users table after `UPDATE users SET is_banned = $1 WHERE email = $2`. */
  function WithBanFlag(users: seq<UserRow>, email: string, banned: bool): (r: seq<UserRow>)
    ensures |r| == |users|
    ensures forall i :: 0 <= i < |users| ==>
      r[i] == if users[i].email == email then users[i].(isBanned := banned) else users[i]
  {
    if users == [] then []
    else
      var head := if users[0].email == email then users[0].(isBanned := banned) else users[0];
      [head] + WithBanFlag(users[1..], email, banned)
  }

  /** Some user row has the email. */
  ghost predicate HasEmail(users: seq<UserRow>, email: string) {
    exists i :: 0 <= i < |users| && users[i].email == email
  }

  /** Rewriting the ban flag keeps the id column serial. */
  lemma BanFlagKeepsSerial(users: seq<UserRow>, email: string, banned: bool, next: int)
    requires Serial(users, UserKey, next)
    ensures Serial(WithBanFlag(users, email, banned), UserKey, next)
  {
    SameIdsKeepSerial(users, WithBanFlag(users, email, banned), UserKey, next);
  }

  /** Rewriting the ban flag keeps every email present. */
  lemma BanFlagKeepsEmails(users: seq<UserRow>, email: string, banned: bool)
    ensures forall e :: HasEmail(WithBanFlag(users, email, banned), e) <==> HasEmail(users, e)
  {
    var after := WithBanFlag(users, email, banned);
    forall e | HasEmail(users, e) ensures HasEmail(after, e) {
      var i :| 0 <= i < |users| && users[i].email == e;
      assert after[i].email == e;
    }
  }

  /** After the ban flag is rewritten, `WHERE email = $1` finds the same row,
      which now holds the new flag. */
  lemma BanFlagIsFound(users: seq<UserRow>, email: string, banned: bool)
    ensures var after := WithBanFlag(users, email, banned);
      && First(after, (u: UserRow) => u.email == email) == First(users, (u: UserRow) => u.email == email)
      && (First(after, (u: UserRow) => u.email == email).Some? <==> HasEmail(users, email))
      && (First(after, (u: UserRow) => u.email == email).Some? ==>
            after[First(after, (u: UserRow) => u.email == email).value].isBanned == banned)
  {
    SameEmailsSameFirst(users, WithBanFlag(users, email, banned), email);
  }

  /** The posts table after `UPDATE posts SET ... WHERE id = $1`, with
      `replacement` carrying that id and the new columns. */
  function WithPostReplaced(posts: seq<Post>, replacement: Post): (r: seq<Post>)
    ensures |r| == |posts|
    ensures forall i :: 0 <= i < |posts| ==>
      r[i] == if posts[i].id == replacement.id then replacement else posts[i]
  {
    if posts == [] then []
    else
      var head := if posts[0].id == replacement.id then replacement else posts[0];
      [head] + WithPostReplaced(posts[1..], replacement)
  }

  /** Some post row has the id. */
  ghost predicate HasPostId(posts: seq<Post>, postId: int) {
    exists i :: 0 <= i < |posts| && posts[i].id.value == postId
  }

  /** Replacing rows by id keeps the id column serial. */
  lemma ReplaceKeepsSerial(posts: seq<Post>, replacement: Post, next: int)
    requires Serial(posts, PostKey, next)
    ensures Serial(WithPostReplaced(posts, replacement), PostKey, next)
  {
    SameIdsKeepSerial(posts, WithPostReplaced(posts, replacement), PostKey, next);
  }

  /** Replacing rows by id keeps the same ids present, and every row under
      the replaced id is the replacement. */
  lemma ReplaceKeepsIds(posts: seq<Post>, replacement: Post)
    ensures var after := WithPostReplaced(posts, replacement);
      && (HasPostId(after, replacement.id.value) <==> HasPostId(posts, replacement.id.value))
      && (forall p :: p in after && p.id == replacement.id ==> p == replacement)
  {
    var after := WithPostReplaced(posts, replacement);
    if HasPostId(posts, replacement.id.value) {
      var i :| 0 <= i < |posts| && posts[i].id.value == replacement.id.value;
      assert after[i].id.value == replacement.id.value;
    }
  }

  lemma {:induction false} SameEmailsSameFirst(before: seq<UserRow>, after: seq<UserRow>, email: string)
    requires |before| == |after| && forall i :: 0 <= i < |before| ==> after[i].email == before[i].email
    ensures First(after, (u: UserRow) => u.email == email) == First(before, (u: UserRow) => u.email == email)
  {
    if before != [] {
      assert after[0].email == before[0].email;
      forall i | 0 <= i < |before| - 1 ensures after[1..][i].email == before[1..][i].email {
        assert after[1..][i] == after[i + 1] && before[1..][i] == before[i + 1];
      }
      SameEmailsSameFirst(before[1..], after[1..], email);
    }
  }

  ghost predicate UniqueEmails(users: seq<UserRow>) {
    forall i, j :: 0 <= i < j < |users| ==> users[i].email != users[j].email
  }

  class Store {
    var users: seq<UserRow>
    /** The admins table's admin_user_id column. */
    var admins: seq<i32>
    var posts: seq<Post>
    var votes: seq<Vote>
    /** Next value of users_id_seq, posts_id_seq and votes_id_seq. */
    var userSeq: int
    var postSeq: int
    var voteSeq: int

    ghost predicate Valid()
      reads this
    {
      && Serial(users, UserKey, userSeq)
      && Serial(posts, PostKey, postSeq)
      && Serial(votes, VoteKey, voteSeq)
    }

    /** No two users share an email: what registration maintains (the store
        itself does not enforce it). */
    ghost predicate EmailsUnique()
      reads this
    {
      UniqueEmails(users)
    }

    ghost predicate HasUser(email: string)
      reads this
    {
      HasEmail(users, email)
    }

    ghost predicate HasPost(postId: int)
      reads this
    {
      HasPostId(posts, postId)
    }

    /** `Store::with_pool` over an empty database. */
    constructor ()
      ensures Valid() && EmailsUnique()
      ensures users == [] && admins == [] && posts == [] && votes == []
      ensures userSeq == 1 && postSeq == 1 && voteSeq == 1
    {
      users, admins, posts, votes := [], [], [], [];
      userSeq, postSeq, voteSeq := 1, 1, 1;
    }

    // -------------------------------------------------------------------------
    // Users

    /** `get_user`: the email and stored hash of the first user with that
        email; zero rows is a database error. */
    function GetUser(email: string): (r: AppResult<User>)
      reads this
      ensures r.Err? <==> !HasUser(email)
      ensures r.Err? ==> r.error == Database(RowNotFound)
      ensures r.Ok? ==> r.value.email == email
      ensures r.Ok? ==> exists i :: 0 <= i < |users| && users[i].email == email && users[i].password == r.value.password
    {
      match First(users, (u: UserRow) => u.email == email)
      case None => Err(FromSqlx(RowNotFound))
      case Some(i) => Ok(User(users[i].email, users[i].password))
    }

    /** `get_user_id_by_email`. */
    function GetUserIdByEmail(email: string): (r: AppResult<i32>)
      reads this
      ensures r.Err? <==> !HasUser(email)
      ensures r.Err? ==> r.error == Database(RowNotFound)
      ensures r.Ok? ==> exists i :: 0 <= i < |users| && users[i].email == email && users[i].id == r.value
    {
      match First(users, (u: UserRow) => u.email == email)
      case None => Err(FromSqlx(RowNotFound))
      case Some(i) => Ok(users[i].id)
    }

    /** `create_user`: inserts the email and the (already hashed) password
        with `is_banned = false`; it checks nothing about existing users. Any
        failure of the INSERT is reported as `InternalServerError`. */
    method CreateUser(user: UserSignup) returns (r: AppResult<map<string, string>>)
      requires Valid()
      modifies this
      ensures Valid()
      ensures old(userSeq) > I32_MAX ==> r == Err(InternalServerError) && unchanged(this)
      ensures old(userSeq) <= I32_MAX ==>
        && r == Ok(map["message" := USER_CREATED])
        && users == old(users) + [UserRow(old(userSeq), user.email, user.password, false)]
        && userSeq == old(userSeq) + 1
      ensures admins == old(admins) && posts == old(posts) && votes == old(votes)
      ensures postSeq == old(postSeq) && voteSeq == old(voteSeq)
      ensures r.Ok? ==> HasUser(user.email) && DetermineIfUserBanned(user.email).Ok?
      ensures r.Ok? && !old(HasUser(user.email)) ==>
        GetUser(user.email) == Ok(User(user.email, user.password)) && DetermineIfUserBanned(user.email) == Ok(false)
    {
      if userSeq > I32_MAX {
        return Err(InternalServerError);
      }
      var row := UserRow(userSeq, user.email, user.password, false);
      AppendKeepsSerial(users, row, UserKey, userSeq);
      users := users + [row];
      userSeq := userSeq + 1;
      assert users[|users| - 1] == row;
      r := Ok(map["message" := USER_CREATED]);
    }

    /** `determine_if_user_banned`: the flag of the first user with that
        email; zero rows is a database error. */
    function DetermineIfUserBanned(email: string): (r: AppResult<bool>)
      reads this
      ensures r.Err? <==> !HasUser(email)
      ensures r.Err? ==> r.error == Database(RowNotFound)
      ensures r.Ok? ==> exists i :: 0 <= i < |users| && users[i].email == email && users[i].isBanned == r.value
    {
      match First(users, (u: UserRow) => u.email == email)
      case None => Err(FromSqlx(RowNotFound))
      case Some(i) => Ok(users[i].isBanned)
    }

    /** `determine_if_user_admin`: whether the join of users and admins has a
        row for that email. An unknown email is simply not an admin. */
    function DetermineIfUserAdmin(email: string): (r: AppResult<bool>)
      reads this
      ensures r.Ok?
      ensures r.value <==> exists i, j :: 0 <= i < |users| && 0 <= j < |admins| && users[i].email == email && admins[j] == users[i].id
    {
      var adminIds := admins;
      var found := First(users, (u: UserRow) => u.email == email && u.id in adminIds);
      assert found.None? ==> forall i :: 0 <= i < |users| ==> !(users[i].email == email && users[i].id in adminIds);
      Ok(found.Some?)
    }

    // -------------------------------------------------------------------------
    // Posts

    /** `get_all_posts`: every row, each of which `get_post_by_id` finds. */
    function GetAllPosts(): (r: AppResult<seq<Post>>)
      reads this
      ensures r.Ok? && |r.value| == |posts|
      ensures forall p :: p in r.value <==> p in posts
      ensures Valid() ==> forall p :: p in r.value ==> GetPostById(p.id.value) == Ok(p)
    {
      SerialRowsAreFound();
      Ok(posts)
    }

    lemma SerialRowsAreFound()
      ensures Valid() ==> forall p :: p in posts ==> GetPostById(p.id.value) == Ok(p)
    {
      if Valid() {
        forall p | p in posts ensures GetPostById(p.id.value) == Ok(p) {
          var i :| 0 <= i < |posts| && posts[i] == p;
          SerialIdNamesOneRow(posts, PostKey, postSeq, i);
        }
      }
    }

    lemma LastPostIsFound()
      requires Valid() && |posts| > 0
      ensures GetPostById(posts[|posts| - 1].id.value) == Ok(posts[|posts| - 1])
    {
      SerialIdNamesOneRow(posts, PostKey, postSeq, |posts| - 1);
    }

    /** `get_post_by_id`: the row with that id; zero rows is a database error. */
    function GetPostById(postId: i32): (r: AppResult<Post>)
      reads this
      ensures r.Err? <==> !HasPost(postId)
      ensures r.Err? ==> r.error == Database(RowNotFound)
      ensures r.Ok? ==> r.value in posts && r.value.id.value == postId
    {
      match First(posts, (p: Post) => p.id.value == postId)
      case None => Err(FromSqlx(RowNotFound))
      case Some(i) => Ok(posts[i])
    }

    /** `get_top_posts`: up to ten post ids, most-voted first (see
        `Ranking.IsTopRanking` for every order the query may produce). Votes
        for a deleted post still count here: there is no join with posts. */
    function GetTopPosts(): (r: AppResult<seq<int>>)
      reads this
      ensures r.Ok? && Ranking.IsTopRanking(PostIdColumn(votes), r.value, 10)
      ensures |r.value| <= 10
    {
      Ok(Ranking.Top(PostIdColumn(votes)))
    }

    /** `add_post`: inserts the five given columns under a fresh id and
        returns the stored row, which the cache check and `get_post_by_id`
        then find. */
    method AddPost(newPost: CreatePost) returns (r: AppResult<Post>)
      requires Valid()
      modifies this
      ensures Valid()
      ensures old(postSeq) > I32_MAX ==> r == Err(Database(SequenceExhausted("posts_id_seq"))) && unchanged(this)
      ensures old(postSeq) <= I32_MAX ==>
        && r.Ok?
        && r.value == Post(DbId(old(postSeq)), newPost.title, newPost.queryString, newPost.explanation, newPost.imgUrl, newPost.apodDate)
        && posts == old(posts) + [r.value]
        && postSeq == old(postSeq) + 1
      ensures r.Ok? ==> forall p :: p in old(posts) ==> p.id != r.value.id
      ensures r.Ok? ==> CheckCacheByQueryString(NasaQuery(newPost.queryString)) == Ok(true)
      ensures r.Ok? ==> GetPostById(r.value.id.value) == Ok(r.value)
      ensures users == old(users) && admins == old(admins) && votes == old(votes)
      ensures userSeq == old(userSeq) && voteSeq == old(voteSeq)
    {
      if postSeq > I32_MAX {
        return Err(FromSqlx(SequenceExhausted("posts_id_seq")));
      }
      var post := Post(DbId(postSeq), newPost.title, newPost.queryString, newPost.explanation, newPost.imgUrl, newPost.apodDate);
      AppendKeepsSerial(posts, post, PostKey, postSeq);
      posts := posts + [post];
      postSeq := postSeq + 1;
      LastPostIsFound();
      assert posts[|posts| - 1] == post;
      r := Ok(post);
    }

    /** `delete_post_by_id`: removes the row with that id, if any; votes for
        it are left in place. Always `Ok`. */
    method DeletePostById(postId: i32) returns (r: AppResult<()>)
      requires Valid()
      modifies this
      ensures Valid()
      ensures r == Ok(())
      ensures forall p :: p in posts <==> p in old(posts) && p.id.value != postId
      ensures GetPostById(postId).Err?
      ensures users == old(users) && admins == old(admins) && votes == old(votes)
      ensures userSeq == old(userSeq) && postSeq == old(postSeq) && voteSeq == old(voteSeq)
    {
      var keep := (p: Post) => p.id.value != postId;
      FilterKeepsSerial(posts, keep, PostKey, postSeq);
      posts := Filter(posts, keep);
      r := Ok(());
    }

    /** `update_post_by_id`: overwrites the five columns of the row with that
        id, leaves every other row alone, then reads the row back; zero rows
        is a database error (the UPDATE itself changed nothing). */
    method UpdatePostById(update: UpdatePost) returns (r: AppResult<Post>)
      requires Valid()
      modifies this
      ensures Valid()
      ensures |posts| == |old(posts)|
      ensures forall i :: 0 <= i < |posts| ==>
        posts[i] == if old(posts)[i].id == update.id
                    then Post(update.id, update.title, update.queryString, update.explanation, update.imgUrl, update.apodDate)
                    else old(posts)[i]
      ensures r.Err? <==> !old(HasPost(update.id.value))
      ensures r.Err? ==> r.error == Database(RowNotFound)
      ensures r.Ok? ==> r.value == Post(update.id, update.title, update.queryString, update.explanation, update.imgUrl, update.apodDate)
      ensures users == old(users) && admins == old(admins) && votes == old(votes)
      ensures userSeq == old(userSeq) && postSeq == old(postSeq) && voteSeq == old(voteSeq)
    {
      var replacement := Post(update.id, update.title, update.queryString, update.explanation, update.imgUrl, update.apodDate);
      UpdatePostRows(replacement);
      r := GetPostById(update.id.value);
    }

    /** The UPDATE statement of `update_post_by_id`: every row with the
        replacement's id becomes the replacement, the rest stay; the same ids
        remain present. */
    method UpdatePostRows(replacement: Post)
      requires Valid()
      modifies this
      ensures Valid()
      ensures |posts| == |old(posts)|
      ensures forall i :: 0 <= i < |posts| ==>
        posts[i] == if old(posts)[i].id == replacement.id then replacement else old(posts)[i]
      ensures HasPost(replacement.id.value) <==> old(HasPost(replacement.id.value))
      ensures forall p :: p in posts && p.id == replacement.id ==> p == replacement
      ensures users == old(users) && admins == old(admins) && votes == old(votes)
      ensures userSeq == old(userSeq) && postSeq == old(postSeq) && voteSeq == old(voteSeq)
    {
      ReplaceKeepsSerial(posts, replacement, postSeq);
      ReplaceKeepsIds(posts, replacement);
      posts := WithPostReplaced(posts, replacement);
    }

    /** `get_post_by_query_string`: the first post cached under that key. */
    function GetPostByQueryString(query: NasaQuery): (r: AppResult<Post>)
      reads this
      ensures r.Err? <==> forall i :: 0 <= i < |posts| ==> posts[i].queryString != query.queryString
      ensures r.Err? ==> r.error == Database(RowNotFound)
      ensures r.Ok? ==> r.value in posts && r.value.queryString == query.queryString
    {
      match First(posts, (p: Post) => p.queryString == query.queryString)
      case None => Err(FromSqlx(RowNotFound))
      case Some(i) => Ok(posts[i])
    }

    /** `check_cache_by_query_string`: `SELECT EXISTS(...)`, a column sqlx
        types as nullable; only a definite false is a miss. A hit is exactly
        when `get_post_by_query_string` finds a post. */
    function CheckCacheByQueryString(query: NasaQuery): (r: AppResult<bool>)
      reads this
      ensures r.Ok?
      ensures r.value <==> exists i :: 0 <= i < |posts| && posts[i].queryString == query.queryString
      ensures r.value <==> GetPostByQueryString(query).Ok?
    {
      var exists_ := Some(First(posts, (p: Post) => p.queryString == query.queryString).Some?);
      if exists_ == Some(false) then Ok(false) else Ok(true)
    }

    /** `get_user_posts_by_id`, with each post under its own id (see
        `UserPostsAsWritten` for what the source returns): one post per vote
        of the user, so a post voted for twice comes back twice. */
    function GetUserPostsById(userId: i32): (r: AppResult<seq<Post>>)
      reads this
      ensures r.Ok?
      ensures forall p :: p in r.value <==> p in posts && exists v :: v in votes && v.userId == userId && v.postId == p.id
      ensures forall p :: Occurrences(r.value, p) == Occurrences(posts, p) * UserVotesOn(votes, userId, p.id)
    {
      var joined := UserPosts(posts, votes, userId);
      assert forall p :: Occurrences(joined, p) == Occurrences(posts, p) * UserVotesOn(votes, userId, p.id) by {
        forall p ensures Occurrences(joined, p) == Occurrences(posts, p) * UserVotesOn(votes, userId, p.id) {
          UserPostsCounts(posts, votes, userId, p);
        }
      }
      Ok(joined)
    }

    // -------------------------------------------------------------------------
    // Votes

    /** `determine_if_user_liked_post`. */
    function DetermineIfUserLikedPost(userId: i32, postId: i32): (r: AppResult<bool>)
      reads this
      ensures r.Ok?
      ensures r.value <==> exists i :: 0 <= i < |votes| && votes[i].userId == userId && votes[i].postId.value == postId
    {
      var found := First(votes, (v: Vote) => v.userId == userId && v.postId.value == postId);
      Ok(found.Some?)
    }

    /** `create_vote`: inserts unconditionally (a second vote by the same user
        on the same post is stored too) and returns the row. */
    method CreateVote(vote: CreateVote) returns (r: AppResult<Vote>)
      requires Valid()
      modifies this
      ensures Valid()
      ensures old(voteSeq) > I32_MAX ==> r == Err(Database(SequenceExhausted("votes_id_seq"))) && unchanged(this)
      ensures old(voteSeq) <= I32_MAX ==>
        && r == Ok(Vote(DbId(old(voteSeq)), vote.postId, vote.userId))
        && votes == old(votes) + [r.value]
        && voteSeq == old(voteSeq) + 1
      ensures r.Ok? ==> DetermineIfUserLikedPost(vote.userId, vote.postId.value) == Ok(true)
      ensures r.Ok? ==> Ranking.VoteCount(PostIdColumn(votes), vote.postId.value) == Ranking.VoteCount(PostIdColumn(old(votes)), vote.postId.value) + 1
      ensures users == old(users) && admins == old(admins) && posts == old(posts)
      ensures userSeq == old(userSeq) && postSeq == old(postSeq)
    {
      if voteSeq > I32_MAX {
        return Err(FromSqlx(SequenceExhausted("votes_id_seq")));
      }
      var row := Vote(DbId(voteSeq), vote.postId, vote.userId);
      AppendKeepsSerial(votes, row, VoteKey, voteSeq);
      assert PostIdColumn(votes + [row]) == PostIdColumn(votes) + [vote.postId.value];
      votes := votes + [row];
      voteSeq := voteSeq + 1;
      assert votes[|votes| - 1] == row;
      r := Ok(row);
    }

    /** `delete_vote`: removes every vote of that user on that post, and no
        other row. Always `Ok`. */
    method DeleteVote(vote: CreateVote) returns (r: AppResult<()>)
      requires Valid()
      modifies this
      ensures Valid()
      ensures r == Ok(())
      ensures forall v :: v in votes <==> v in old(votes) && !(v.userId == vote.userId && v.postId == vote.postId)
      ensures DetermineIfUserLikedPost(vote.userId, vote.postId.value) == Ok(false)
      ensures users == old(users) && admins == old(admins) && posts == old(posts)
      ensures userSeq == old(userSeq) && postSeq == old(postSeq) && voteSeq == old(voteSeq)
    {
      var keep := (v: Vote) => !(v.userId == vote.userId && v.postId == vote.postId);
      FilterKeepsSerial(votes, keep, VoteKey, voteSeq);
      votes := Filter(votes, keep);
      assert forall i :: 0 <= i < |votes| ==> votes[i] in votes;
      r := Ok(());
    }

    /** `get_number_of_votes_for_post`: `COUNT(posts.id)` over votes joined
        with posts, so the votes of a post that no longer exists count 0. */
    function GetNumberOfVotesForPost(postId: i32): (r: AppResult<int>)
      reads this
      ensures r.Ok? && r.value >= 0
      ensures Valid() ==> r.value == if HasPost(postId) then Ranking.VoteCount(PostIdColumn(votes), postId) else 0
    {
      PostIdsAreKeys(postId);
      Ok(Ranking.VoteCount(PostIdColumn(votes), postId) * |Filter(posts, (p: Post) => p.id.value == postId)|)
    }

    lemma PostIdsAreKeys(postId: int)
      ensures Valid() ==>
        |Filter(posts, (p: Post) => p.id.value == postId)| == if HasPost(postId) then 1 else 0
    {
      if Valid() {
        SerialIdMatchesOnce(posts, postId, postSeq);
      }
    }

    // -------------------------------------------------------------------------
    // Admin

    /** `ban_user_by_email` / `unban_user_by_email`: sets the flag on every
        user with that email and changes nothing else; an unknown email is not
        an error. */
    method SetBannedByEmail(email: string, banned: bool)
      requires Valid()
      modifies this
      ensures Valid()
      ensures |users| == |old(users)|
      ensures forall i :: 0 <= i < |users| ==>
        users[i] == if old(users)[i].email == email then old(users)[i].(isBanned := banned) else old(users)[i]
      ensures DetermineIfUserBanned(email) == if old(HasUser(email)) then Ok(banned) else Err(Database(RowNotFound))
      ensures forall e :: HasUser(e) <==> old(HasUser(e))
      ensures admins == old(admins) && posts == old(posts) && votes == old(votes)
      ensures userSeq == old(userSeq) && postSeq == old(postSeq) && voteSeq == old(voteSeq)
    {
      BanFlagKeepsSerial(users, email, banned, userSeq);
      BanFlagKeepsEmails(users, email, banned);
      BanFlagIsFound(users, email, banned);
      users := WithBanFlag(users, email, banned);
    }

    /** `ban_user_by_email`. */
    method BanUserByEmail(email: string) returns (r: AppResult<()>)
      requires Valid()
      modifies this
      ensures Valid()
      ensures r == Ok(())
      ensures |users| == |old(users)|
      ensures forall i :: 0 <= i < |users| ==>
        users[i] == if old(users)[i].email == email then old(users)[i].(isBanned := true) else old(users)[i]
      ensures DetermineIfUserBanned(email) == if old(HasUser(email)) then Ok(true) else Err(Database(RowNotFound))
      ensures admins == old(admins) && posts == old(posts) && votes == old(votes)
      ensures userSeq == old(userSeq) && postSeq == old(postSeq) && voteSeq == old(voteSeq)
    {
      SetBannedByEmail(email, true);
      r := Ok(());
    }

    /** `unban_user_by_email`. */
    method UnbanUserByEmail(email: string) returns (r: AppResult<()>)
      requires Valid()
      modifies this
      ensures Valid()
      ensures r == Ok(())
      ensures |users| == |old(users)|
      ensures forall i :: 0 <= i < |users| ==>
        users[i] == if old(users)[i].email == email then old(users)[i].(isBanned := false) else old(users)[i]
      ensures DetermineIfUserBanned(email) == if old(HasUser(email)) then Ok(false) else Err(Database(RowNotFound))
      ensures admins == old(admins) && posts == old(posts) && votes == old(votes)
      ensures userSeq == old(userSeq) && postSeq == old(postSeq) && voteSeq == old(voteSeq)
    {
      SetBannedByEmail(email, false);
      r := Ok(());
    }

    /** `promote_admin_by_email`: looks the user's id up (an unknown email is a
        database error) and inserts an admins row for it unconditionally, so a
        second promotion adds a second row. */
    method PromoteAdminByEmail(email: string) returns (r: AppResult<()>)
      requires Valid()
      modifies this
      ensures Valid()
      ensures old(GetUserIdByEmail(email)).Err? ==> r == Err(Database(RowNotFound)) && unchanged(this)
      ensures old(GetUserIdByEmail(email)).Ok? ==> r == Ok(()) && admins == old(admins) + [old(GetUserIdByEmail(email)).value]
      ensures r.Ok? ==> DetermineIfUserAdmin(email) == Ok(true)
      ensures users == old(users) && posts == old(posts) && votes == old(votes)
      ensures userSeq == old(userSeq) && postSeq == old(postSeq) && voteSeq == old(voteSeq)
    {
      var id := GetUserIdByEmail(email);
      if id.Err? {
        return Err(id.error);
      }
      admins := admins + [id.value];
      assert admins[|admins| - 1] == id.value;
      r := Ok(());
    }

    /** `demote_admin_by_email`: looks the user's id up (an unknown email is a
        database error) and deletes every admins row for it, so with unique
        emails the admin check is false afterwards however often the user was
        promoted. */
    method DemoteAdminByEmail(email: string) returns (r: AppResult<()>)
      requires Valid()
      modifies this
      ensures Valid()
      ensures old(GetUserIdByEmail(email)).Err? ==> r == Err(Database(RowNotFound)) && unchanged(this)
      ensures old(GetUserIdByEmail(email)).Ok? ==>
        && r == Ok(())
        && forall a :: a in admins <==> a in old(admins) && a != old(GetUserIdByEmail(email)).value
      ensures r.Ok? && EmailsUnique() ==> DetermineIfUserAdmin(email) == Ok(false)
      ensures users == old(users) && posts == old(posts) && votes == old(votes)
      ensures userSeq == old(userSeq) && postSeq == old(postSeq) && voteSeq == old(voteSeq)
    {
      var id := GetUserIdByEmail(email);
      if id.Err? {
        return Err(id.error);
      }
      var userId := id.value;
      admins := Filter(admins, (a: i32) => a != userId);
      if EmailsUnique() {
        forall i, j | 0 <= i < |users| && 0 <= j < |admins| && users[i].email == email
          ensures admins[j] != users[i].id
        {
          assert admins[j] in admins;
          var k :| 0 <= k < |users| && users[k].email == email && users[k].id == userId;
          assert i == k;
        }
      }
      r := Ok(());
    }
  }
}
