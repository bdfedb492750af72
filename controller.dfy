/** The page controller of ui.js: the globals `currentUser` and `storyList`, the story items
    of the page, the submit form's inputs and localStorage, changed by the event handlers.
    Collaborator calls (login, story fetches, favorites, submission) are not made here: what
    they return is a parameter of the handler that awaits them. */
module UiController {
  import opened Wrappers
  import opened HostName
  import opened StoryView
  import opened SessionStore

  /** The three inputs of the submit form. */
  datatype StoryFields = StoryFields(author: string, title: string, url: string)

  /** The favorites ui.js decorates a page with: none when nobody is logged in. */
  function Favorited(user: Option<User>, doc: seq<Item>): (r: seq<Item>)
    ensures SameIds(r, doc)
    ensures user.None? ==> r == doc
  {
    if user.None? then doc else DecorateEach(doc, user.value.favorites, MarkFavorite)
  }

  /** addUSerFavorites twice in a row is addUSerFavorites once. */
  lemma FavoritedIdempotent(user: Option<User>, doc: seq<Item>)
    ensures Favorited(user, Favorited(user, doc)) == Favorited(user, doc)
  {
    if user.Some? {
      MarkFavoritesIdempotent(doc, user.value.favorites);
    }
  }

  /** Decorating by id never adds a star to a page that has none. */
  lemma ApplyAtFirstKeepsNoStars(doc: seq<Item>, id: string, d: Decoration)
    requires NoStars(doc)
    ensures NoStars(ApplyAtFirst(doc, id, d))
  {
    var k := FirstIndex(doc, id);
    if k >= 0 {
      DecorateKeepsStars(doc[k], d);
    }
  }

  /** Inserting a star-free item keeps a page star-free. */
  lemma NoStarsInsert(doc: seq<Item>, p: int, it: Item)
    requires NoStars(doc) && 0 <= p <= |doc| && StarFree(it)
    ensures NoStars(doc[..p] + [it] + doc[p..])
  {
    var r := doc[..p] + [it] + doc[p..];
    forall k | 0 <= k < |r| ensures StarFree(r[k]) {
      if k < p {
        assert r[k] == doc[k];
      } else if k > p {
        assert r[k] == doc[k - 1];
      }
    }
  }

  /** Cutting a concatenation at the length of its first part gives back both parts. */
  lemma SplitAtLength(a: seq<Item>, b: seq<Item>)
    ensures (a + b)[..|a|] == a && (a + b)[|a|..] == b
  {
  }

  /** Appending story `i`'s item to the first `i` rendered stories, ahead of the rest of the
      page, renders the first `i + 1`. */
  lemma AppendRendered(stories: seq<Story>, i: int, b: bool, rest: seq<Item>)
    requires 0 <= i < |stories|
    ensures var page := RenderAll(stories[..i], b) + rest;
      page[..i] + [RenderStory(stories[i], b)] + page[i..] == RenderAll(stories[..i + 1], b) + rest
  {
    var front := RenderAll(stories[..i], b);
    SplitAtLength(front, rest);
    RenderAllSnoc(stories, i, b);
    assert front + [RenderStory(stories[i], b)] + rest == (front + [RenderStory(stories[i], b)]) + rest;
  }

  /** Prepending an item, then inserting one just past position `p` of the old page, puts
      the two around the old page's first `p` items. */
  lemma PrependThenInsert(page: seq<Item>, it: Item, other: Item, p: int)
    requires 0 <= p <= |page|
    ensures var once := [it] + page;
      once[..p + 1] + [other] + once[p + 1..] == [it] + page[..p] + [other] + page[p..]
  {
    var once := [it] + page;
    assert once[..p + 1] == [it] + page[..p];
    assert once[p + 1..] == page[p..];
  }

  /** Nothing follows the rendered stories on a page that was empty. */
  lemma NothingAfter(items: seq<Item>, page: seq<Item>, n: int)
    requires page == [] && n == 0
    ensures items + page[n..] == items
  {
  }

  class Page {
    /** `currentUser`: null until somebody logs in. */
    var currentUser: Option<User>
    /** `storyList.stories`, as last fetched. */
    var storyList: seq<Story>
    /** The story items of the page in document order, as `$('#' + id)` searches them: first
        the `allCount` items of `#all-articles-list`, then the `favoritesCount` items of
        `#favorited-articles`, then the items of `#my-articles` (`$ownStories` and
        `$userStories` are both that element). */
    var doc: seq<Item>
    var allCount: nat
    var favoritesCount: nat
    /** Whether `#favorited-articles` and `#my-articles` hold their "nothing yet" notices. */
    var favoritesNotice: bool
    var myStoriesNotice: bool
    /** The `#author`, `#title` and `#url` inputs of the submit form. */
    var form: StoryFields
    /** localStorage. */
    var storage: Storage

    /** The containers fit in the page, and stars are rendered only for a logged-in user
        (nothing removes the user again short of a page reload). */
    ghost predicate Valid()
      reads this
    {
      allCount + favoritesCount <= |doc| &&
      (currentUser.None? ==> NoStars(doc))
    }

    /** Page load with the stored session: `checkIfLoggedIn`. The token and username are read
        from `stored`, and `resolve` is what `User.getLoggedInUser` makes of them. `fetched` is
        what `StoryList.getStories` returns, None when it rejects: the page then stays empty
        and the favorites are not filled. */
    constructor Load(stored: Storage, resolve: (Option<string>, Option<string>) -> Option<User>,
                     fetched: Option<seq<Story>>)
      ensures Valid()
      ensures currentUser == resolve(GetItem(stored, TokenKey), GetItem(stored, UsernameKey))
      ensures storage == stored && favoritesCount == 0
      ensures !favoritesNotice && !myStoriesNotice && form == StoryFields("", "", "")
      ensures fetched.None? ==> storyList == [] && doc == [] && allCount == 0
      ensures fetched.Some? ==>
        storyList == fetched.value && allCount == |fetched.value| &&
        doc == Favorited(currentUser, RenderAll(fetched.value, currentUser.Some?))
    {
      currentUser := resolve(GetItem(stored, TokenKey), GetItem(stored, UsernameKey));
      storyList := [];
      doc := [];
      allCount, favoritesCount := 0, 0;
      favoritesNotice, myStoriesNotice := false, false;
      form := StoryFields("", "", "");
      storage := stored;
      new;
      if fetched.Some? {
        ShowFirstStories(fetched.value);
      }
    }

    /** The rest of checkIfLoggedIn once the stories have arrived on the empty page:
        generateStories, then addUSerFavorites again when somebody is logged in. */
    method ShowFirstStories(stories: seq<Story>)
      requires Valid() && doc == [] && allCount == 0
      modifies this`storyList, this`doc, this`allCount
      ensures Valid()
      ensures storyList == stories && allCount == |stories|
      ensures doc == Favorited(currentUser, RenderAll(stories, currentUser.Some?))
    {
      ghost var before, count := doc, allCount;
      GenerateStories(Some(stories));
      ghost var rendered := RenderAll(stories, currentUser.Some?);
      NothingAfter(rendered, before, count);
      if currentUser.Some? {
        AddUserFavorites();
        FavoritedIdempotent(currentUser, rendered);
      }
    }

    /** addUSerFavorites: nothing without a user; otherwise, for each favorite in turn, fill the
        icons of the first item with its id. */
    method AddUserFavorites()
      requires Valid()
      modifies this`doc
      ensures Valid()
      ensures doc == Favorited(currentUser, old(doc))
    {
      if currentUser.None? {
        return;
      }
      var favs := currentUser.value.favorites;
      for i := 0 to |favs|
        invariant Valid()
        invariant doc == DecorateEach(old(doc), favs[..i], MarkFavorite)
      {
        assert favs[..i + 1][..i] == favs[..i];
        doc := ApplyAtFirst(doc, favs[i].storyId, MarkFavorite);
      }
      assert favs[..|favs|] == favs;
    }

    /** appendTrashIcon: for each story in turn, prepend a trash can to the first item with
        its id. */
    method AppendTrashIcon(userStories: seq<Story>)
      requires Valid()
      modifies this`doc
      ensures Valid()
      ensures doc == DecorateEach(old(doc), userStories, AddTrashCan)
    {
      for i := 0 to |userStories|
        invariant Valid()
        invariant doc == DecorateEach(old(doc), userStories[..i], AddTrashCan)
      {
        assert userStories[..i + 1][..i] == userStories[..i];
        if currentUser.None? {
          ApplyAtFirstKeepsNoStars(doc, userStories[i].storyId, AddTrashCan);
        }
        doc := ApplyAtFirst(doc, userStories[i].storyId, AddTrashCan);
      }
      assert userStories[..|userStories|] == userStories;
    }

    /** allStoryMaker: one rendered item per story, in order, starred iff somebody is logged in. */
    method AllStoryMaker(stories: seq<Story>) returns (results: seq<Item>)
      ensures results == RenderAll(stories, currentUser.Some?)
    {
      results := [];
      for i := 0 to |stories|
        invariant results == RenderAll(stories[..i], currentUser.Some?)
      {
        RenderAllSnoc(stories, i, currentUser.Some?);
        results := results + [RenderStory(stories[i], currentUser.Some?)];
      }
      assert stories[..|stories|] == stories;
    }

    /** The loop of generateStories: `#all-articles-list` is emptied and each story is
        appended to it as rendered; the other containers are kept. */
    method RenderAllStoriesList(stories: seq<Story>)
      requires Valid()
      modifies this`doc, this`allCount
      ensures Valid()
      ensures allCount == |stories|
      ensures doc == RenderAll(stories, currentUser.Some?) + old(doc)[old(allCount)..]
    {
      var rest := doc[allCount..];
      doc := rest;
      allCount := 0;
      if currentUser.None? {
        NoStarsAppend(old(doc)[..old(allCount)], rest);
        assert old(doc)[..old(allCount)] + rest == old(doc);
      }
      var b := currentUser.Some?;
      for i := 0 to |stories|
        invariant allCount == i
        invariant doc == RenderAll(stories[..i], b) + rest
        invariant Valid()
      {
        var result := RenderStory(stories[i], b);
        AppendRendered(stories, i, b, rest);
        if currentUser.None? {
          AnonymousItemStarFree(stories[i]);
          NoStarsInsert(doc, allCount, result);
        }
        doc := doc[..allCount] + [result] + doc[allCount..];
        allCount := allCount + 1;
      }
      assert stories[..|stories|] == stories;
    }

    /** generateStories: `fetched` is what `StoryList.getStories` returns, None when it
        rejects, which ends the call with nothing changed. Otherwise the stories replace the
        story list, `#all-articles-list` is re-rendered from them, then addUSerFavorites runs
        over the page. */
    method GenerateStories(fetched: Option<seq<Story>>)
      requires Valid()
      modifies this`storyList, this`doc, this`allCount
      ensures Valid()
      ensures fetched.None? ==> storyList == old(storyList) && doc == old(doc) && allCount == old(allCount)
      ensures fetched.Some? ==>
        storyList == fetched.value && allCount == |fetched.value| &&
        doc == Favorited(currentUser, RenderAll(fetched.value, currentUser.Some?) + old(doc)[old(allCount)..])
    {
      if fetched.None? {
        return;
      }
      storyList := fetched.value;
      RenderAllStoriesList(fetched.value);
      AddUserFavorites();
    }

    /** The "all stories" navigation link: generateStories, then addUSerFavorites again;
        when the fetch rejects the handler ends with nothing changed. */
    method ShowAllStories(fetched: Option<seq<Story>>)
      requires Valid()
      modifies this`storyList, this`doc, this`allCount
      ensures Valid()
      ensures fetched.None? ==> storyList == old(storyList) && doc == old(doc) && allCount == old(allCount)
      ensures fetched.Some? ==>
        storyList == fetched.value && allCount == |fetched.value| &&
        doc == Favorited(currentUser, RenderAll(fetched.value, currentUser.Some?) + old(doc)[old(allCount)..])
    {
      GenerateStories(fetched);
      if fetched.None? {
        return;
      }
      FavoritedIdempotent(currentUser, RenderAll(fetched.value, currentUser.Some?) + old(doc)[old(allCount)..]);
      AddUserFavorites();
    }

    /** The Favorites navigation link: nothing without a user; otherwise `#favorited-articles`
        and `#all-articles-list` are emptied, the favorites are rendered into the former (with
        the notice iff there are none), `#my-articles` is left as it was, and addUSerFavorites
        runs over the page. */
    method ShowFavorites()
      requires Valid()
      modifies this`doc, this`allCount, this`favoritesCount, this`favoritesNotice
      ensures Valid()
      ensures old(currentUser).None? ==>
        doc == old(doc) && allCount == old(allCount) && favoritesCount == old(favoritesCount) &&
        favoritesNotice == old(favoritesNotice)
      ensures old(currentUser).Some? ==>
        var favs := old(currentUser).value.favorites;
        allCount == 0 && favoritesCount == |favs| && favoritesNotice == (|favs| == 0) &&
        doc == DecorateEach(RenderAll(favs, true) + old(doc)[old(allCount) + old(favoritesCount)..],
                            favs, MarkFavorite)
    {
      if currentUser.None? {
        return;
      }
      doc := doc[allCount + favoritesCount..];
      allCount, favoritesCount := 0, 0;
      var userFavorites := AllStoryMaker(currentUser.value.favorites);
      favoritesNotice := |userFavorites| == 0;
      doc := userFavorites + doc;
      favoritesCount := |userFavorites|;
      AddUserFavorites();
    }

    /** createMyStories: nothing without a user; otherwise all three containers are emptied.
        `ownFetched` is what `currentUser.getOwnStories()` leaves in `currentUser.ownStories`,
        None when it rejects: the page is then left empty. Otherwise the own stories are
        rendered into `#my-articles` (with the notice iff there are none), addUSerFavorites
        runs, then appendTrashIcon over the own stories. */
    method CreateMyStories(ownFetched: Option<seq<Story>>)
      requires Valid()
      modifies this`currentUser, this`doc, this`allCount, this`favoritesCount, this`favoritesNotice,
               this`myStoriesNotice
      ensures Valid()
      ensures old(currentUser).None? ==>
        currentUser == old(currentUser) && doc == old(doc) && allCount == old(allCount) &&
        favoritesCount == old(favoritesCount) && favoritesNotice == old(favoritesNotice) &&
        myStoriesNotice == old(myStoriesNotice)
      ensures old(currentUser).Some? && ownFetched.None? ==>
        currentUser == old(currentUser) && doc == [] && allCount == 0 && favoritesCount == 0 &&
        !favoritesNotice && !myStoriesNotice
      ensures old(currentUser).Some? && ownFetched.Some? ==>
        var own := ownFetched.value;
        currentUser == Some(old(currentUser).value.(ownStories := own)) &&
        allCount == 0 && favoritesCount == 0 && !favoritesNotice && myStoriesNotice == (|own| == 0) &&
        doc == DecorateEach(DecorateEach(RenderAll(own, true),
                                         old(currentUser).value.favorites, MarkFavorite),
                            own, AddTrashCan)
    {
      if currentUser.None? {
        return;
      }
      doc := [];
      allCount, favoritesCount := 0, 0;
      favoritesNotice, myStoriesNotice := false, false;
      if ownFetched.None? {
        return;
      }
      currentUser := Some(currentUser.value.(ownStories := ownFetched.value));
      var userStories := AllStoryMaker(currentUser.value.ownStories);
      myStoriesNotice := |userStories| == 0;
      doc := userStories;
      AddUserFavorites();
      AppendTrashIcon(currentUser.value.ownStories);
    }

    /** handleRemoveStory: `deleted` says whether the collaborator's `deleteStory` resolved;
        when it rejects nothing changes. Otherwise My Stories is built again, `ownAfter` being
        what `getOwnStories` then reports. */
    method HandleRemoveStory(deleted: bool, ownAfter: Option<seq<Story>>)
      requires Valid()
      modifies this`currentUser, this`doc, this`allCount, this`favoritesCount, this`favoritesNotice,
               this`myStoriesNotice
      ensures Valid()
      ensures !deleted || old(currentUser).None? ==>
        currentUser == old(currentUser) && doc == old(doc) && allCount == old(allCount) &&
        favoritesCount == old(favoritesCount) && favoritesNotice == old(favoritesNotice) &&
        myStoriesNotice == old(myStoriesNotice)
      ensures deleted && old(currentUser).Some? && ownAfter.None? ==>
        currentUser == old(currentUser) && doc == [] && allCount == 0 && favoritesCount == 0 &&
        !favoritesNotice && !myStoriesNotice
      ensures deleted && old(currentUser).Some? && ownAfter.Some? ==>
        var own := ownAfter.value;
        currentUser == Some(old(currentUser).value.(ownStories := own)) &&
        allCount == 0 && favoritesCount == 0 && !favoritesNotice && myStoriesNotice == (|own| == 0) &&
        doc == DecorateEach(DecorateEach(RenderAll(own, true),
                                         old(currentUser).value.favorites, MarkFavorite),
                            own, AddTrashCan)
    {
      if !deleted {
        return;
      }
      CreateMyStories(ownAfter);
    }

    /** handleFormSubmit: the three inputs are read (and returned: they are what is sent to
        the collaborator) and cleared. `created` is the story the collaborator returns, None
        when its call rejects, which ends the handler there. Otherwise the story is prepended
        to `#all-articles-list` as rendered and to `#my-articles` with a trash can, and the
        "no stories yet" notice goes. */
    method HandleFormSubmit(created: Option<Story>) returns (sent: StoryFields)
      requires Valid()
      modifies this`form, this`doc, this`allCount, this`myStoriesNotice
      ensures Valid()
      ensures sent == old(form) && form == StoryFields("", "", "")
      ensures created.None? ==>
        doc == old(doc) && allCount == old(allCount) && myStoriesNotice == old(myStoriesNotice)
      ensures created.Some? ==>
        allCount == old(allCount) + 1 && !myStoriesNotice &&
        var it := RenderStory(created.value, currentUser.Some?);
        var mine := old(allCount) + old(favoritesCount);
        doc == [it] + old(doc)[..mine] + [AddTrash(it)] + old(doc)[mine..]
    {
      sent := form;
      form := StoryFields("", "", "");
      if created.None? {
        return;
      }
      var story := created.value;
      var it := RenderStory(story, currentUser.Some?);
      ghost var before := doc;
      if currentUser.None? {
        AnonymousItemStarFree(story);
        assert NoStars([it]);
        NoStarsAppend([it], doc);
      }
      doc := [it] + doc;
      allCount := allCount + 1;
      var mine := allCount + favoritesCount;
      var trashed := AddTrash(RenderStory(story, currentUser.Some?));
      if currentUser.None? {
        NoStarsInsert(doc, mine, trashed);
      }
      doc := doc[..mine] + [trashed] + doc[mine..];
      myStoriesNotice := false;
      PrependThenInsert(before, it, trashed, mine - 1);
    }

    /** handleFavoriteClick on the star icon in span `j` of item `k` of the page: the branch
        follows the icon's `favorite` class; the icon changes only when the collaborator
        confirms that branch with its exact message. `favoritesAfter` is what the
        collaborator leaves in `currentUser.favorites`. Nothing else on the page changes,
        and a star can only be clicked when somebody is logged in. */
    method HandleFavoriteClick(k: int, j: int, message: string, favoritesAfter: seq<Story>)
      requires Valid()
      requires 0 <= k < |doc| && 0 <= j < |doc[k].spans| && doc[k].spans[j].StarSpan?
      modifies this`currentUser, this`doc
      ensures Valid()
      ensures old(currentUser).Some?
      ensures currentUser == Some(old(currentUser).value.(favorites := favoritesAfter))
      ensures doc == old(doc)[k := SetStar(old(doc)[k], j, Toggle(old(doc)[k].spans[j].icon, message))]
    {
      var it := doc[k];
      var icon := it.spans[j].icon;
      if Favorite in icon {
        if message == FavoriteRemoved {
          doc := doc[k := SetStar(it, j, Unfill(icon))];
        } else {
          doc := doc[k := SetStar(it, j, icon)];
        }
      } else {
        if message == FavoriteAdded {
          doc := doc[k := SetStar(it, j, Fill(icon))];
        } else {
          doc := doc[k := SetStar(it, j, icon)];
        }
      }
      currentUser := Some(currentUser.value.(favorites := favoritesAfter));
    }

    /** syncCurrentUserToLocalStorage: token and username are stored when somebody is logged
        in; otherwise storage is left alone. */
    method SyncCurrentUserToLocalStorage()
      modifies this`storage
      ensures storage == if currentUser.Some?
                         then Saved(old(storage), currentUser.value.loginToken, currentUser.value.username)
                         else old(storage)
    {
      if currentUser.Some? {
        storage := Saved(storage, currentUser.value.loginToken, currentUser.value.username);
      }
    }

    /** The logout link: `localStorage.clear()`. */
    method LogOut()
      modifies this`storage
      ensures storage == map[]
    {
      storage := map[];
    }

    /** What the login and sign-up handlers do once the collaborator has returned a user:
        set `currentUser`, store the session, then loginAndSubmitForm. Its un-awaited
        generateStories has only started its fetch when addUSerFavorites runs over the old
        page; the rest of generateStories follows once `fetched` settles. */
    method StartSession(user: User, fetched: Option<seq<Story>>)
      requires Valid()
      modifies this`currentUser, this`storage, this`storyList, this`doc, this`allCount
      ensures Valid()
      ensures currentUser == Some(user)
      ensures storage == Saved(old(storage), user.loginToken, user.username)
      ensures fetched.None? ==>
        storyList == old(storyList) && allCount == old(allCount) && doc == Favorited(Some(user), old(doc))
      ensures fetched.Some? ==>
        storyList == fetched.value && allCount == |fetched.value| &&
        doc == Favorited(Some(user), RenderAll(fetched.value, true) +
                                     Favorited(Some(user), old(doc))[old(allCount)..])
    {
      currentUser := Some(user);
      SyncCurrentUserToLocalStorage();
      AddUserFavorites();
      GenerateStories(fetched);
    }

    /** The login form: `result` is what `User.login` returns, None when it rejects the
        credentials, in which case the awaited call throws and nothing else happens. */
    method LogIn(result: Option<User>, fetched: Option<seq<Story>>)
      requires Valid()
      modifies this`currentUser, this`storage, this`storyList, this`doc, this`allCount
      ensures Valid()
      ensures result.None? ==>
        currentUser == old(currentUser) && storage == old(storage) && storyList == old(storyList) &&
        doc == old(doc) && allCount == old(allCount)
      ensures result.Some? ==>
        currentUser == result && storage == Saved(old(storage), result.value.loginToken, result.value.username)
      ensures result.Some? && fetched.None? ==>
        storyList == old(storyList) && allCount == old(allCount) && doc == Favorited(result, old(doc))
      ensures result.Some? && fetched.Some? ==>
        storyList == fetched.value && allCount == |fetched.value| &&
        doc == Favorited(result, RenderAll(fetched.value, true) + Favorited(result, old(doc))[old(allCount)..])
    {
      if result.Some? {
        StartSession(result.value, fetched);
      }
    }

    /** The create-account form: `result` is what `User.create` returns, None when it fails. */
    method SignUp(result: Option<User>, fetched: Option<seq<Story>>)
      requires Valid()
      modifies this`currentUser, this`storage, this`storyList, this`doc, this`allCount
      ensures Valid()
      ensures result.None? ==>
        currentUser == old(currentUser) && storage == old(storage) && storyList == old(storyList) &&
        doc == old(doc) && allCount == old(allCount)
      ensures result.Some? ==>
        currentUser == result && storage == Saved(old(storage), result.value.loginToken, result.value.username)
      ensures result.Some? && fetched.None? ==>
        storyList == old(storyList) && allCount == old(allCount) && doc == Favorited(result, old(doc))
      ensures result.Some? && fetched.Some? ==>
        storyList == fetched.value && allCount == |fetched.value| &&
        doc == Favorited(result, RenderAll(fetched.value, true) + Favorited(result, old(doc))[old(allCount)..])
    {
      if result.Some? {
        StartSession(result.value, fetched);
      }
    }
  }
}
