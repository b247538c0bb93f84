/** The post, vote and APOD-query records (backend/src/models/post.rs,
    models/vote.rs, models/nasaquery.rs). */
module Records {

  import opened Lib

  datatype PostTag = PostTag
  datatype VoteTag = VoteTag

  /** `make_db_id!(PostId)` and `make_db_id!(VoteId)`. */
  type PostId = DbId<PostTag>
  type VoteId = DbId<VoteTag>

  /** A row of the posts table. */
  datatype Post = Post(
    id: PostId,
    title: string,
    queryString: string,
    explanation: string,
    imgUrl: string,
    apodDate: string)

  /** The five client-supplied columns of a new post. */
  datatype CreatePost = CreatePost(
    title: string,
    queryString: string,
    explanation: string,
    imgUrl: string,
    apodDate: string)

  /** A full replacement of the row with the given id. */
  datatype UpdatePost = UpdatePost(
    id: PostId,
    title: string,
    queryString: string,
    explanation: string,
    imgUrl: string,
    apodDate: string)

  /** A row of the votes table. */
  datatype Vote = Vote(id: VoteId, postId: PostId, userId: i32)

  /** A vote as a client names it: the post and the voter. */
  datatype CreateVote = CreateVote(postId: PostId, userId: i32)

  /** The cache key of an APOD lookup. */
  datatype NasaQuery = NasaQuery(queryString: string)
}
