/** The story lists of the page as values: stories and users as ui.js receives them, the
    rendered list items, and the decorations ui.js applies to them. The page itself is the
    sequence of all rendered items in document order; jQuery's `$('#' + id)` reaches only the
    first item with that id in it. */
module StoryView {
  import opened HostName

  /** A story as the collaborator returns it. */
  datatype Story = Story(storyId: string, title: string, author: string, url: string, username: string)

  /** The logged-in user: favorites are full stories, own stories too. */
  datatype User = User(username: string, loginToken: string, favorites: seq<Story>, ownStories: seq<Story>)

  /** The CSS classes ui.js puts on an icon `<i>` element. */
  datatype IconClass = Far | Fas | FaStar | Favorite | FaTrashAlt

  type Icon = set<IconClass>

  /** `far fa-star`: the outline star a story is rendered with. */
  const OutlineStar: Icon := {Far, FaStar}
  /** `fas fa-star favorite`: the filled star of a favorite. */
  const FilledStar: Icon := {Fas, FaStar, Favorite}
  /** `fas fa-trash-alt`: the delete icon of an own story. */
  const TrashCan: Icon := {Fas, FaTrashAlt}

  /** A `<span>` child of a list item: the empty span rendered for anonymous visitors,
      the `star` span, or the `trash-can` span; the last two hold one icon each. */
  datatype Span = EmptySpan | StarSpan(icon: Icon) | TrashSpan(icon: Icon)

  /** A rendered `<li>`: its id, the texts it shows, and its span children in order. */
  datatype Item = Item(id: string, title: string, author: string, url: string, username: string,
                       hostLabel: string, spans: seq<Span>)

  /** `.removeClass('far fa-star').addClass('fas fa-star').addClass('favorite')`. */
  function Fill(icon: Icon): (r: Icon)
    ensures Favorite in r && Fas in r && FaStar in r && Far !in r
    ensures forall c :: c in icon && c != Far ==> c in r
    ensures forall c :: c in r ==> c in icon || c in {Fas, FaStar, Favorite}
  {
    icon - {Far, FaStar} + {Fas, FaStar} + {Favorite}
  }

  /** `.removeClass('fas fa-star favorite').addClass('far fa-star')`. */
  function Unfill(icon: Icon): (r: Icon)
    ensures Favorite !in r && Fas !in r && Far in r && FaStar in r
    ensures forall c :: c !in {Far, Fas, FaStar, Favorite} ==> (c in r <==> c in icon)
  {
    icon - {Fas, FaStar, Favorite} + {Far, FaStar}
  }

  lemma FillIdempotent(icon: Icon)
    ensures Fill(Fill(icon)) == Fill(icon)
  {
  }

  /** generateStoryHTML: a star span only when somebody is logged in, always the outline star. */
  function RenderStory(story: Story, loggedIn: bool): (it: Item)
    ensures it.id == story.storyId && it.hostLabel == GetHostName(story.url)
    ensures it.title == story.title && it.author == story.author && it.username == story.username
    ensures it.url == story.url
    ensures it.spans == [if loggedIn then StarSpan(OutlineStar) else EmptySpan]
  {
    Item(story.storyId, story.title, story.author, story.url, story.username,
         GetHostName(story.url),
         [if loggedIn then StarSpan(OutlineStar) else EmptySpan])
  }

  /** One rendered item per story, in order. */
  function RenderAll(stories: seq<Story>, loggedIn: bool): (items: seq<Item>)
    ensures |items| == |stories|
    ensures forall k :: 0 <= k < |stories| ==> items[k] == RenderStory(stories[k], loggedIn)
  {
    seq(|stories|, k requires 0 <= k < |stories| => RenderStory(stories[k], loggedIn))
  }

  /** Rendering one more story appends one more item. */
  lemma RenderAllSnoc(stories: seq<Story>, i: int, loggedIn: bool)
    requires 0 <= i < |stories|
    ensures RenderAll(stories[..i + 1], loggedIn) == RenderAll(stories[..i], loggedIn) + [RenderStory(stories[i], loggedIn)]
  {
    var a, b := RenderAll(stories[..i + 1], loggedIn), RenderAll(stories[..i], loggedIn) + [RenderStory(stories[i], loggedIn)];
    var init := RenderAll(stories[..i], loggedIn);
    forall k | 0 <= k < |a| ensures a[k] == b[k] {
      assert stories[..i + 1][k] == stories[k];
      assert a[k] == RenderStory(stories[k], loggedIn);
      if k < i {
        assert stories[..i][k] == stories[k];
        assert b[k] == init[k] == RenderStory(stories[k], loggedIn);
      } else {
        assert b[k] == RenderStory(stories[i], loggedIn);
      }
    }
  }

  /** addUSerFavorites reaches `.children('span').children('i')`: the icon of every span that
      has one, the trash can's included. */
  function FillSpan(sp: Span): Span {
    match sp
    case EmptySpan => EmptySpan
    case StarSpan(i) => StarSpan(Fill(i))
    case TrashSpan(i) => TrashSpan(Fill(i))
  }

  function FillItem(it: Item): (r: Item)
    ensures r.(spans := it.spans) == it && |r.spans| == |it.spans|
    ensures forall j :: 0 <= j < |it.spans| ==> r.spans[j] == FillSpan(it.spans[j])
  {
    it.(spans := seq(|it.spans|, j requires 0 <= j < |it.spans| => FillSpan(it.spans[j])))
  }

  lemma FillItemIdempotent(it: Item)
    ensures FillItem(FillItem(it)) == FillItem(it)
  {
    var a, b := FillItem(FillItem(it)), FillItem(it);
    forall j | 0 <= j < |it.spans| ensures a.spans[j] == b.spans[j] {
      match it.spans[j]
      case EmptySpan =>
      case StarSpan(i) => FillIdempotent(i);
      case TrashSpan(i) => FillIdempotent(i);
    }
    assert a.spans == b.spans;
  }

  /** appendTrashIcon's `.prepend(...)` of a trash-can span. */
  function AddTrash(it: Item): (r: Item)
    ensures r.(spans := it.spans) == it && |r.spans| == |it.spans| + 1
    ensures r.spans[0] == TrashSpan(TrashCan) && r.spans[1..] == it.spans
  {
    it.(spans := [TrashSpan(TrashCan)] + it.spans)
  }

  /** The two decorations ui.js applies to an item found by its id. */
  datatype Decoration = MarkFavorite | AddTrashCan

  function Decorate(it: Item, d: Decoration): (r: Item)
    ensures r.id == it.id
  {
    match d
    case MarkFavorite => FillItem(it)
    case AddTrashCan => AddTrash(it)
  }

  /** The index of the first item with this id, or -1: `$('#' + id)`. */
  function FirstIndex(doc: seq<Item>, id: string): (r: int)
    ensures -1 <= r < |doc|
    ensures r >= 0 ==> doc[r].id == id && forall j :: 0 <= j < r ==> doc[j].id != id
    ensures r == -1 <==> forall j :: 0 <= j < |doc| ==> doc[j].id != id
  {
    if doc == [] then -1
    else if doc[0].id == id then 0
    else
      var r := FirstIndex(doc[1..], id);
      assert forall j :: 1 <= j < |doc| ==> doc[j] == doc[1..][j - 1];
      if r < 0 then -1 else r + 1
  }

  /** Two pages with the same ids at the same places. */
  predicate SameIds(a: seq<Item>, b: seq<Item>) {
    |a| == |b| && forall k :: 0 <= k < |a| ==> a[k].id == b[k].id
  }

  /** The id lookup depends on the ids alone. */
  lemma FirstIndexSameIds(a: seq<Item>, b: seq<Item>, id: string)
    requires SameIds(a, b)
    ensures FirstIndex(a, id) == FirstIndex(b, id)
  {
  }

  /** Decorates the first item with this id, if there is one. */
  function ApplyAtFirst(doc: seq<Item>, id: string, d: Decoration): (r: seq<Item>)
    ensures SameIds(r, doc)
  {
    var k := FirstIndex(doc, id);
    if k < 0 then doc else doc[k := Decorate(doc[k], d)]
  }

  /** The loop of addUSerFavorites or appendTrashIcon: one lookup per story, in order. */
  function DecorateEach(doc: seq<Item>, stories: seq<Story>, d: Decoration): (r: seq<Item>)
    ensures SameIds(r, doc)
  {
    if stories == [] then doc
    else ApplyAtFirst(DecorateEach(doc, stories[..|stories| - 1], d), stories[|stories| - 1].storyId, d)
  }

  /** The ids of a list of stories. */
  function IdsOf(stories: seq<Story>): set<string> {
    set s | s in stories :: s.storyId
  }

  /** Whether item `k` is the one `$('#' + id)` finds for its own id. */
  predicate IsFirst(doc: seq<Item>, k: int)
    requires 0 <= k < |doc|
  {
    FirstIndex(doc, doc[k].id) == k
  }

  /** `r` is `doc` with decoration `d` applied to exactly the items that are the first with
      one of the `ids`. */
  ghost predicate DecoratedAt(doc: seq<Item>, r: seq<Item>, ids: set<string>, d: Decoration) {
    |r| == |doc| &&
    forall k :: 0 <= k < |doc| ==>
      r[k] == if doc[k].id in ids && IsFirst(doc, k) then Decorate(doc[k], d) else doc[k]
  }

  /** One more lookup keeps the closed form: filling is idempotent, and a trash can is only
      added for an id not seen before. */
  lemma DecorateStep(doc: seq<Item>, prev: seq<Item>, ids: set<string>, id: string, d: Decoration)
    requires DecoratedAt(doc, prev, ids, d)
    requires d == MarkFavorite || id !in ids
    ensures DecoratedAt(doc, ApplyAtFirst(prev, id, d), ids + {id}, d)
  {
    FirstIndexSameIds(prev, doc, id);
    var r := ApplyAtFirst(prev, id, d);
    var f := FirstIndex(doc, id);
    forall k | 0 <= k < |doc|
      ensures r[k] == if doc[k].id in ids + {id} && IsFirst(doc, k) then Decorate(doc[k], d) else doc[k]
    {
      if k == f && d == MarkFavorite {
        FillItemIdempotent(doc[k]);
      }
    }
  }

  /** The ids of a list extended by one story. */
  lemma IdsOfSnoc(init: seq<Story>, last: Story)
    ensures IdsOf(init + [last]) == IdsOf(init) + {last.storyId}
  {
    var all := init + [last];
    forall x | x in IdsOf(all) ensures x in IdsOf(init) + {last.storyId} {
      var s :| s in all && s.storyId == x;
      if s != last {
        var i :| 0 <= i < |all| && all[i] == s;
        assert init[i] == s;
      }
    }
    forall x | x in IdsOf(init) + {last.storyId} ensures x in IdsOf(all) {
      if x != last.storyId {
        var s :| s in init && s.storyId == x;
        var i :| 0 <= i < |init| && init[i] == s;
        assert all[i] == s;
      } else {
        assert all[|init|] == last;
      }
    }
  }

  /** The loops of addUSerFavorites (any favorites) and appendTrashIcon (own stories with
      distinct ids) decorate exactly the items that are the first with one of the ids, and
      leave every other item as it was. */
  lemma {:induction false} DecorateEachClosedForm(doc: seq<Item>, stories: seq<Story>, d: Decoration)
    requires d == MarkFavorite || DistinctIds(stories)
    ensures DecoratedAt(doc, DecorateEach(doc, stories, d), IdsOf(stories), d)
    decreases |stories|
  {
    if stories == [] {
      assert IdsOf(stories) == {};
    } else {
      var init, last := stories[..|stories| - 1], stories[|stories| - 1];
      assert stories == init + [last];
      assert d == MarkFavorite || DistinctIds(init) by {
        if d != MarkFavorite {
          forall i, j | 0 <= i < j < |init| ensures init[i].storyId != init[j].storyId {
            assert init[i] == stories[i] && init[j] == stories[j];
          }
        }
      }
      DecorateEachClosedForm(doc, init, d);
      IdsOfSnoc(init, last);
      if d != MarkFavorite {
        forall s | s in init ensures s.storyId != last.storyId {
          var i :| 0 <= i < |init| && init[i] == s;
          assert stories[i] == s;
        }
      }
      DecorateStep(doc, DecorateEach(doc, init, d), IdsOf(init), last.storyId, d);
    }
  }

  /** Running addUSerFavorites twice with the same favorites changes nothing more. */
  lemma MarkFavoritesIdempotent(doc: seq<Item>, stories: seq<Story>)
    ensures var once := DecorateEach(doc, stories, MarkFavorite);
      DecorateEach(once, stories, MarkFavorite) == once
  {
    var once := DecorateEach(doc, stories, MarkFavorite);
    DecorateEachClosedForm(doc, stories, MarkFavorite);
    DecorateEachClosedForm(once, stories, MarkFavorite);
    var again := DecorateEach(once, stories, MarkFavorite);
    forall k | 0 <= k < |doc| ensures again[k] == once[k] {
      FirstIndexSameIds(once, doc, doc[k].id);
      if doc[k].id in IdsOf(stories) && IsFirst(doc, k) {
        FillItemIdempotent(doc[k]);
      }
    }
  }

  /** No two stories share an id. */
  predicate DistinctIds(stories: seq<Story>) {
    forall i, j :: 0 <= i < j < |stories| ==> stories[i].storyId != stories[j].storyId
  }

  /** In a freshly rendered list of stories with distinct ids, followed by anything, story `k`
      is the first item with its id, and its id is one of the stories'. */
  lemma RenderedFirst(stories: seq<Story>, loggedIn: bool, rest: seq<Item>, k: int)
    requires DistinctIds(stories) && 0 <= k < |stories|
    ensures IsFirst(RenderAll(stories, loggedIn) + rest, k)
    ensures (RenderAll(stories, loggedIn) + rest)[k].id in IdsOf(stories)
  {
    var doc := RenderAll(stories, loggedIn) + rest;
    assert doc[k].id == stories[k].storyId;
    forall j | 0 <= j < k ensures doc[j].id != stories[k].storyId {
      assert doc[j].id == stories[j].storyId;
    }
    assert stories[k] in stories;
  }

  /** Decorating the rendered stories by their own ids decorates every one of them. */
  lemma RenderedDecorated(stories: seq<Story>, rest: seq<Item>, r: seq<Item>, d: Decoration, k: int)
    requires DistinctIds(stories) && 0 <= k < |stories|
    requires DecoratedAt(RenderAll(stories, true) + rest, r, IdsOf(stories), d)
    ensures r[k] == Decorate(RenderStory(stories[k], true), d)
  {
    RenderedFirst(stories, true, rest, k);
  }

  /** A rendered star, filled, is the filled star. */
  lemma FilledRendered(story: Story)
    ensures FillItem(RenderStory(story, true)).spans == [StarSpan(FilledStar)]
  {
    var it := RenderStory(story, true);
    assert Fill(OutlineStar) == FilledStar;
    assert |FillItem(it).spans| == 1 && FillItem(it).spans[0] == StarSpan(Fill(OutlineStar));
  }

  /** The Favorites view: each favorite (ids distinct) is shown with the filled star, in order,
      ahead of whatever My Stories still holds. */
  lemma FavoritesViewFilled(favs: seq<Story>, mine: seq<Item>)
    requires DistinctIds(favs)
    ensures var r := DecorateEach(RenderAll(favs, true) + mine, favs, MarkFavorite);
      |r| == |favs| + |mine| &&
      forall k :: 0 <= k < |favs| ==>
        r[k].id == favs[k].storyId && r[k].hostLabel == GetHostName(favs[k].url) &&
        r[k].spans == [StarSpan(FilledStar)]
  {
    var doc := RenderAll(favs, true) + mine;
    var r := DecorateEach(doc, favs, MarkFavorite);
    DecorateEachClosedForm(doc, favs, MarkFavorite);
    forall k | 0 <= k < |favs|
      ensures r[k].id == favs[k].storyId && r[k].hostLabel == GetHostName(favs[k].url) &&
              r[k].spans == [StarSpan(FilledStar)]
    {
      RenderedDecorated(favs, mine, r, MarkFavorite, k);
      FilledRendered(favs[k]);
    }
  }

  /** The My Stories view: each own story (ids distinct) is shown in order with one trash can
      ahead of its star, and the star is filled iff the story is a favorite. */
  lemma MyStoriesViewShape(own: seq<Story>, favs: seq<Story>)
    requires DistinctIds(own)
    ensures var r := DecorateEach(DecorateEach(RenderAll(own, true), favs, MarkFavorite), own, AddTrashCan);
      |r| == |own| &&
      forall k :: 0 <= k < |own| ==>
        r[k].id == own[k].storyId && r[k].hostLabel == GetHostName(own[k].url) &&
        r[k].spans == [TrashSpan(TrashCan),
                       StarSpan(if own[k].storyId in IdsOf(favs) then FilledStar else OutlineStar)]
  {
    var doc := RenderAll(own, true);
    var marked := DecorateEach(doc, favs, MarkFavorite);
    var r := DecorateEach(marked, own, AddTrashCan);
    DecorateEachClosedForm(doc, favs, MarkFavorite);
    DecorateEachClosedForm(marked, own, AddTrashCan);
    forall k | 0 <= k < |own|
      ensures r[k].id == own[k].storyId && r[k].hostLabel == GetHostName(own[k].url) &&
              r[k].spans == [TrashSpan(TrashCan),
                             StarSpan(if own[k].storyId in IdsOf(favs) then FilledStar else OutlineStar)]
    {
      MyStoryItem(own, favs, marked, r, k);
    }
  }

  /** An own story after addUSerFavorites: filled iff a favorite, and still the first item
      with its id. */
  lemma MarkedOwnItem(own: seq<Story>, ids: set<string>, marked: seq<Item>, k: int)
    requires DistinctIds(own) && 0 <= k < |own|
    requires DecoratedAt(RenderAll(own, true), marked, ids, MarkFavorite)
    ensures IsFirst(marked, k)
    ensures marked[k] == if own[k].storyId in ids then FillItem(RenderStory(own[k], true))
                         else RenderStory(own[k], true)
  {
    var doc := RenderAll(own, true);
    assert doc + [] == doc;
    RenderedFirst(own, true, [], k);
    FirstIndexSameIds(marked, doc, doc[k].id);
  }

  /** One item of the My Stories view. */
  lemma MyStoryItem(own: seq<Story>, favs: seq<Story>, marked: seq<Item>, r: seq<Item>, k: int)
    requires DistinctIds(own) && 0 <= k < |own|
    requires DecoratedAt(RenderAll(own, true), marked, IdsOf(favs), MarkFavorite)
    requires DecoratedAt(marked, r, IdsOf(own), AddTrashCan)
    ensures r[k].id == own[k].storyId && r[k].hostLabel == GetHostName(own[k].url)
    ensures r[k].spans == [TrashSpan(TrashCan),
                           StarSpan(if own[k].storyId in IdsOf(favs) then FilledStar else OutlineStar)]
  {
    MarkedOwnItem(own, IdsOf(favs), marked, k);
    assert own[k] in own;
    assert r[k] == AddTrash(marked[k]);
    FilledRendered(own[k]);
  }

  /** An item with no star span. */
  predicate StarFree(it: Item) {
    forall j :: 0 <= j < |it.spans| ==> !it.spans[j].StarSpan?
  }

  /** No star anywhere on the page. */
  predicate NoStars(doc: seq<Item>) {
    forall k :: 0 <= k < |doc| ==> StarFree(doc[k])
  }

  /** A page has no star iff neither of its parts has one. */
  lemma NoStarsAppend(a: seq<Item>, b: seq<Item>)
    ensures NoStars(a + b) <==> NoStars(a) && NoStars(b)
  {
    var ab := a + b;
    if NoStars(ab) {
      forall k | 0 <= k < |b| ensures StarFree(b[k]) {
        assert ab[|a| + k] == b[k];
      }
      forall k | 0 <= k < |a| ensures StarFree(a[k]) {
        assert ab[k] == a[k];
      }
    }
  }

  /** An anonymous visitor's item has no star, nor does it once a trash can is prepended. */
  lemma AnonymousItemStarFree(story: Story)
    ensures StarFree(RenderStory(story, false))
    ensures StarFree(AddTrash(RenderStory(story, false)))
  {
    assert AddTrash(RenderStory(story, false)).spans == [TrashSpan(TrashCan), EmptySpan];
  }

  /** Anonymous visitors see no star, whatever the stories. */
  lemma AnonymousHasNoStars(stories: seq<Story>)
    ensures NoStars(RenderAll(stories, false))
  {
    forall k | 0 <= k < |stories| ensures StarFree(RenderAll(stories, false)[k]) {
      AnonymousItemStarFree(stories[k]);
    }
  }

  /** Decorating an item adds no star and removes none. */
  lemma DecorateKeepsStars(it: Item, d: Decoration)
    ensures StarFree(Decorate(it, d)) <==> StarFree(it)
  {
    var r := Decorate(it, d);
    if d == AddTrashCan {
      forall j | 0 <= j < |it.spans| ensures r.spans[j + 1] == it.spans[j] { }
      forall j | 0 <= j < |r.spans| && r.spans[j].StarSpan? ensures j > 0 && it.spans[j - 1].StarSpan? { }
    } else {
      forall j | 0 <= j < |it.spans| ensures r.spans[j].StarSpan? == it.spans[j].StarSpan? {
        assert r.spans[j] == FillSpan(it.spans[j]);
      }
    }
  }

  /** The confirmation messages the collaborator answers with. */
  const FavoriteAdded := "Favorite Added!"
  const FavoriteRemoved := "Favorite Removed!"

  /** handleFavoriteClick on one star icon: the branch is chosen by the icon's `favorite`
      class alone; the icon changes only on the confirmation of that branch. */
  function Toggle(icon: Icon, message: string): (r: Icon)
    ensures Favorite in icon && message == FavoriteRemoved ==> r == Unfill(icon)
    ensures Favorite !in icon && message == FavoriteAdded ==> r == Fill(icon)
    ensures (if Favorite in icon then message != FavoriteRemoved else message != FavoriteAdded) ==> r == icon
  {
    if Favorite in icon then
      if message == FavoriteRemoved then Unfill(icon) else icon
    else
      if message == FavoriteAdded then Fill(icon) else icon
  }

  /** A click flips the favorite class exactly when the branch taken is confirmed. */
  lemma ToggleFlips(icon: Icon, message: string)
    ensures (Favorite in Toggle(icon, message)) <==>
            (if Favorite in icon then message != FavoriteRemoved else message == FavoriteAdded)
  {
  }

  /** A confirmed add followed by a confirmed remove gives back any outline star, whatever
      other classes it carries. */
  lemma AddThenRemoveRestores(icon: Icon)
    requires Far in icon && FaStar in icon && Fas !in icon && Favorite !in icon
    ensures Toggle(Toggle(icon, FavoriteAdded), FavoriteRemoved) == icon
  {
    var filled := Toggle(icon, FavoriteAdded);
    assert filled == Fill(icon);
    var back := Toggle(filled, FavoriteRemoved);
    assert back == Unfill(filled);
    forall c ensures c in back <==> c in icon {
      if c !in {Far, Fas, FaStar, Favorite} {
        assert c in filled <==> c in icon;
      }
    }
  }

  /** The item with its `j`-th span's icon replaced. */
  function SetStar(it: Item, j: int, icon: Icon): (r: Item)
    requires 0 <= j < |it.spans|
    ensures r.(spans := it.spans) == it && |r.spans| == |it.spans| && r.spans[j] == StarSpan(icon)
    ensures forall i :: 0 <= i < |it.spans| && i != j ==> r.spans[i] == it.spans[i]
  {
    it.(spans := it.spans[j := StarSpan(icon)])
  }
}
