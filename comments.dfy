/**
 * The comment list and its persistence (`CommentApp`).
 *
 * The list is changed in place: a valid submission is pushed on the end, a
 * delete splices one element out, and after either the whole list is written
 * to the `comments` storage key. The list is read back from that key once,
 * when the component mounts.
 */
module Comments {
  import opened Wrappers

  /** One submitted comment; `createdTime` is milliseconds since the epoch. */
  datatype Comment = Comment(username: string, content: string, createdTime: int)

  /** What `handleSubmitComment` does with a submission. */
  datatype Verdict =
    | Ignored          // the comment itself is null: nothing happens
    | MissingUsername  // alert "please enter a username", nothing stored
    | MissingContent   // alert "please enter comment content", nothing stored
    | Accepted         // pushed and stored

  /** Every comment has a non-empty author and body. */
  predicate WellFormed(cs: seq<Comment>) {
    forall i :: 0 <= i < |cs| ==> cs[i].username != [] && cs[i].content != []
  }

  /**
   * The validation of `handleSubmitComment`: a null comment is ignored, then
   * an empty username is rejected (whatever the content), then empty content.
   */
  function Check(c: Option<Comment>): (v: Verdict)
    ensures v == Accepted <==> c.Some? && c.value.username != [] && c.value.content != []
    ensures c.Some? && c.value.username == [] ==> v == MissingUsername
    ensures v == MissingContent <==> c.Some? && c.value.username != [] && c.value.content == []
    ensures v == Ignored <==> c.None?
  {
    match c
    case None => Ignored
    case Some(comment) =>
      if comment.username == [] then MissingUsername
      else if comment.content == [] then MissingContent
      else Accepted
  }

  /**
   * `Array.prototype.splice(index, 1)`: a negative index counts from the end
   * (and is clamped to 0), an index past the end removes nothing; otherwise
   * the one element at the resulting position is removed.
   */
  function SpliceOne<T>(xs: seq<T>, index: int): (r: seq<T>)
    // an in-range index removes exactly that element, keeping the others in order
    ensures 0 <= index < |xs| ==>
      |r| == |xs| - 1 && r[..index] == xs[..index] && r[index..] == xs[index + 1..]
    ensures 0 <= index < |xs| ==> multiset(r) + multiset{xs[index]} == multiset(xs)
    // a negative index counts from the end
    ensures -|xs| <= index < 0 ==> r == xs[..|xs| + index] + xs[|xs| + index + 1..]
    // an index at or past the end removes nothing
    ensures index >= |xs| ==> r == xs
    // whatever the index, at most one element goes and nothing is added
    ensures |xs| - 1 <= |r| <= |xs| && multiset(r) <= multiset(xs)
  {
    var start := if index < 0 then (if |xs| + index < 0 then 0 else |xs| + index)
                 else if index > |xs| then |xs| else index;
    if start < |xs| then
      assert xs == xs[..start] + [xs[start]] + xs[start + 1..];
      xs[..start] + xs[start + 1..]
    else xs
  }

  /** Deleting keeps every remaining comment well formed. */
  lemma SpliceOneWellFormed(cs: seq<Comment>, index: int)
    requires WellFormed(cs)
    ensures WellFormed(SpliceOne(cs, index))
  {
  }

  class CommentApp {
    /** `state.comments`, the list as displayed. */
    var comments: seq<Comment>
    /** The `comments` storage key; `None` when nothing was ever stored. */
    var storage: Option<seq<Comment>>

    /** Storage holds exactly the displayed list. */
    predicate Persisted()
      reads this
    {
      storage == Some(comments)
    }

    /** A fresh component over whatever storage already holds; the list starts empty. */
    constructor (stored: Option<seq<Comment>>)
      ensures comments == [] && storage == stored
    {
      comments := [];
      storage := stored;
    }

    /** `_loadComments`, run once at mount: adopt the stored list if there is one. */
    method LoadComments()
      modifies this
      ensures storage == old(storage)
      ensures comments == if storage.Some? then storage.value else old(comments)
      ensures storage.Some? ==> Persisted()
    {
      if storage.Some? {
        comments := storage.value;
      }
    }

    /** `_saveComments`: write the whole list to storage. */
    method SaveComments()
      modifies this
      ensures comments == old(comments)
      ensures Persisted()
    {
      storage := Some(comments);
    }

    /**
     * `handleSubmitComment`: an accepted comment is pushed on the end and the
     * list is stored; any other verdict changes neither the list nor storage.
     */
    method SubmitComment(c: Option<Comment>) returns (v: Verdict)
      modifies this
      ensures v == Check(c)
      ensures v == Accepted ==> comments == old(comments) + [c.value] && Persisted()
      ensures v != Accepted ==> comments == old(comments) && storage == old(storage)
      ensures WellFormed(old(comments)) ==> WellFormed(comments)
    {
      v := Check(c);
      if v == Accepted {
        comments := comments + [c.value];
        SaveComments();
      }
    }

    /**
     * `handleDeleteComment`: splice one element out and store the list. There
     * is no index check of its own; the list view only passes positions it
     * rendered, `0 <= index < |comments|`.
     */
    method DeleteComment(index: int)
      modifies this
      ensures comments == SpliceOne(old(comments), index)
      ensures Persisted()
      ensures WellFormed(old(comments)) ==> WellFormed(comments)
    {
      if WellFormed(comments) {
        SpliceOneWellFormed(comments, index);
      }
      comments := SpliceOne(comments, index);
      SaveComments();
    }

    /** A page reload: a new component over the same storage, mounted. */
    method Reload() returns (app: CommentApp)
      ensures fresh(app)
      ensures app.storage == storage
      ensures Persisted() ==> app.comments == comments
      ensures storage.None? ==> app.comments == []
    {
      app := new CommentApp(storage);
      app.LoadComments();
    }
  }
}
