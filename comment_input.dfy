/**
 * The comment form (`CommentInput`): the username and content fields, and
 * the cache of the last username used, kept both in the field
 * `cachedLastUsername` and under the `username` storage key.
 */
module Input {
  import opened Wrappers
  import opened Comments

  class CommentInput {
    /** The name last written to storage by this form; `None` until then. */
    var cachedLastUsername: Option<string>
    /** `state.username`, the username field. */
    var username: string
    /** `state.content`, the comment text field. */
    var content: string
    /** The `username` storage key. */
    var storedUsername: Option<string>

    /** Whenever the form has cached a name, storage holds that same name. */
    predicate CacheSynced()
      reads this
    {
      cachedLastUsername.Some? ==> storedUsername == cachedLastUsername
    }

    /** A blur would write: the field is non-empty and differs from the cached name. */
    predicate BlurWouldSave()
      reads this
    {
      username != [] && cachedLastUsername != Some(username)
    }

    /** A fresh form: empty fields, nothing cached, storage as it was left. */
    constructor (stored: Option<string>)
      ensures cachedLastUsername == None && username == [] && content == []
      ensures storedUsername == stored
      ensures CacheSynced()
    {
      cachedLastUsername := None;
      username := [];
      content := [];
      storedUsername := stored;
    }

    /** `_saveUsername`: the cache and the storage key are written together. */
    method SaveUsername(name: string)
      modifies this
      ensures cachedLastUsername == Some(name) && storedUsername == Some(name)
      ensures username == old(username) && content == old(content)
      ensures CacheSynced()
    {
      cachedLastUsername := Some(name);
      storedUsername := Some(name);
    }

    /**
     * `componentDidMount`: a non-empty stored name that differs from the
     * cache is put in the username field and saved again; otherwise nothing
     * changes.
     */
    method DidMount()
      modifies this
      ensures var s := old(storedUsername);
        if s.Some? && s.value != [] && s != old(cachedLastUsername) then
          username == s.value && cachedLastUsername == s && storedUsername == s
          && content == old(content)
        else
          username == old(username) && cachedLastUsername == old(cachedLastUsername)
          && storedUsername == s && content == old(content)
      ensures old(CacheSynced()) ==> CacheSynced()
    {
      var name := storedUsername;
      if name.Some? && name.value != [] {
        if name != cachedLastUsername {
          username := name.value;
          SaveUsername(name.value);
        }
      }
    }

    /** `handleUsernameChange`: the field follows what is typed. */
    method UsernameChange(value: string)
      modifies this
      ensures username == value
      ensures content == old(content) && cachedLastUsername == old(cachedLastUsername)
      ensures storedUsername == old(storedUsername)
    {
      username := value;
    }

    /** `handleContentChange`: the field follows what is typed. */
    method ContentChange(value: string)
      modifies this
      ensures content == value
      ensures username == old(username) && cachedLastUsername == old(cachedLastUsername)
      ensures storedUsername == old(storedUsername)
    {
      content := value;
    }

    /**
     * `handleUsernameBlur`: save the field only when it is non-empty and
     * differs from the cached name. The input is controlled by `username`, so
     * the value the event carries is the field's value. Afterwards a blur
     * would not write again.
     */
    method UsernameBlur() returns (saved: bool)
      modifies this
      ensures saved == old(BlurWouldSave())
      ensures saved ==> cachedLastUsername == Some(username) && storedUsername == Some(username)
      ensures !saved ==> cachedLastUsername == old(cachedLastUsername)
                         && storedUsername == old(storedUsername)
      ensures username == old(username) && content == old(content)
      ensures !BlurWouldSave()
      ensures old(CacheSynced()) ==> CacheSynced()
    {
      saved := BlurWouldSave();
      if saved {
        SaveUsername(username);
      }
    }

    /**
     * `handleSubmit`: hand `{username, content, createdTime: now}` to the
     * list, then clear the content field whatever the list did with it; the
     * username stays.
     */
    method Submit(app: CommentApp, now: int) returns (v: Verdict)
      modifies this, app
      ensures var c := Comment(old(username), old(content), now);
        && v == Check(Some(c))
        && (v == Accepted ==> app.comments == old(app.comments) + [c] && app.Persisted())
        && (v != Accepted ==> app.comments == old(app.comments) && app.storage == old(app.storage))
      ensures v == Accepted <==> old(username) != [] && old(content) != []
      ensures content == [] && username == old(username)
      ensures cachedLastUsername == old(cachedLastUsername) && storedUsername == old(storedUsername)
    {
      v := app.SubmitComment(Some(Comment(username, content, now)));
      content := [];
    }
  }

  /**
   * Construction followed by mount, as on a page load: a non-empty stored
   * name fills the username field and becomes the cached name.
   */
  method Open(stored: Option<string>) returns (form: CommentInput)
    ensures fresh(form)
    ensures stored.Some? && stored.value != [] ==>
      form.username == stored.value && form.cachedLastUsername == stored
    ensures !(stored.Some? && stored.value != []) ==>
      form.username == [] && form.cachedLastUsername == None
    ensures form.storedUsername == stored && form.content == [] && form.CacheSynced()
  {
    form := new CommentInput(stored);
    form.DidMount();
  }
}
