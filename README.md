# Hack or Snooze page controller, in Dafny

Hack or Snooze is a small news-sharing site. Visitors see a list of stories. Logged-in users
can also mark favorites, post stories and delete their own stories. `ui.js` is the page
controller. It renders the story lists, decorates them with star and trash-can icons,
reacts to the navigation links and forms, and keeps the login session in `localStorage`.
This project models that controller and proves what its handlers do to the page.

The model has five modules:

- `HostName` is the pure `getHostName`. JavaScript's `indexOf('://')`, `split('/')` and
  `slice` are written out on strings.
- `StoryView` holds stories, users and rendered list items as values. It covers:
  - the rendering of one story (`generateStoryHTML`) and of a list (`allStoryMaker`);
  - the two decorations: filled stars (`addUSerFavorites`) and trash cans (`appendTrashIcon`);
  - the star toggle of `handleFavoriteClick`.

  The page is one sequence of items in document order. `$('#' + id)` reaches only the first
  item with that id, so a decoration by id changes that item alone.
- `SessionStore` is `localStorage` as a map from string keys to strings.
- `UiController.Page` is a class. It holds the globals `currentUser` and `storyList`, the
  page, the two "nothing yet" notices, the submit form's inputs and `localStorage`. The page
  is one sequence split by two counts: the items of `#all-articles-list`, then those of
  `#favorited-articles`, then those of `#my-articles`. Each event handler is a method that
  changes these fields.
- `Wrappers` holds `Option`, for JavaScript's `null`.

What the collaborators return is a parameter of the handler that awaits it. This covers
`User.login`, `User.create`, `User.getLoggedInUser`, `StoryList.getStories`, `addStory`,
`deleteStory`, `favoriteStory` and `deleteFavoriteStory`, and the own stories that
`getOwnStories` leaves on the user. A rejected call ends the handler where it is awaited:

- `User.login`, `User.create`, `StoryList.getStories`, `addStory` and `getOwnStories` give
  an `Option`, and `None` is the rejection;
- `deleteStory` gives a flag;
- for `favoriteStory` and `deleteFavoriteStory` a rejection is a message that confirms
  nothing, with the favorites left as they were.

## Model

| member | source | states |
|---|---|---|
| HostName.IndexOf | ui.js:423 | `url.indexOf('://')`: the first index where the pattern occurs, or -1 exactly when it occurs nowhere |
| HostName.Split | ui.js:424-426 | `url.split('/')`: at least one piece, and no piece contains '/' |
| HostName.JoinSplit | ui.js:424-426 | the pieces joined with '/' give back the URL, so splitting loses nothing |
| HostName.SplitUnique | ui.js:424-426 | any cut of a string into slash-free pieces joined by '/' is the split |
| HostName.SplitAtFirstSlash | ui.js:424-426 | a slash-free prefix before a '/' is the first piece, and the rest splits on its own |
| HostName.SplitAtDoubleSlash | ui.js:424 | "a//b" splits into a, an empty piece, then the pieces of b |
| HostName.DoubleSlashSplits | ui.js:424 | two adjacent slashes anywhere give at least three pieces |
| HostName.HostSegmentExists | ui.js:423-424 | once "://" occurs anywhere, piece 2 of the split exists |
| HostName.HasScheme | ui.js:423 | `url.indexOf('://') > -1` holds exactly when "://" occurs somewhere in the URL |
| HostName.StartsWithWww | ui.js:428 | `slice(0, 4) === 'www.'` holds exactly when the first four characters are "www." |
| HostName.GetHostName | ui.js:421-432 | the host label never contains '/'; the lemmas below give the label for each shape of URL |
| HostName.StripWwwKeepsNoSlash | ui.js:428-430 | removing the "www." prefix keeps a slash-free host slash-free |
| HostName.StripWww | ui.js:428-430 | exactly one leading "www." is removed when present, and nothing otherwise |
| HostName.HostOfBareSchemeUrl | ui.js:423-424 | "scheme://host" is labelled with the host, minus one leading "www." |
| HostName.HostOfSchemeUrl | ui.js:423-424 | "scheme://host/path" is labelled with the host, minus one leading "www." |
| HostName.HostOfBareHost | ui.js:425-427 | a URL without '/' and without "://" is labelled with itself, minus one leading "www." |
| HostName.HostOfPlainUrl | ui.js:425-427 | a URL without "://" is labelled with its text before the first '/', a port included, minus one leading "www." |
| HostName.NoColonNoScheme | ui.js:423 | a URL without ':' takes the segment-0 branch |
| HostName.HostOfWwwUrl | ui.js:428-430 | a scheme URL whose host is "www." + name is labelled name |
| HostName.OnlyOneWwwStripped | ui.js:428-430 | "scheme://www.www.name" is labelled "www.name": one prefix only |
| HostName.SchemeInPathLosesHost | ui.js:423-424 | "://" inside the path of a URL without a scheme selects piece 2, which is empty |
| HostName.WwwExample | ui.js:421-432 | "https://www.example.com/" + any path is labelled "example.com" |
| HostName.PlainExample | ui.js:425-431 | "example.com/" + a path without ':' is labelled "example.com" |
| HostName.SubdomainExample | ui.js:428-431 | "https://sub.example.com" keeps its "sub." prefix |
| SessionStore.GetItem | ui.js:211-212 | `getItem` gives the stored string exactly when the key is present, else null |
| SessionStore.Saved | ui.js:438-439 | the two `setItem` calls add the token and username keys and leave every other key alone |
| SessionStore.SavedReadsBack | ui.js:211-212 | what was saved is read back by the next page load |
| SessionStore.ClearedReadsNothing | ui.js:72 | after `clear` neither key is read back |
| StoryView.Fill | ui.js:340-342 | the filled star: `favorite`, `fas` and `fa-star` present, `far` gone, every other class kept and none added |
| StoryView.Unfill | ui.js:406-407 | the outline star: `far` and `fa-star` present, `fas` and `favorite` gone, every other class as it was |
| StoryView.FillIdempotent | ui.js:340-342 | filling a filled icon changes nothing |
| StoryView.RenderStory | ui.js:276-298 | the item carries the story's id, texts and URL (the link's `href`) and its host label; it has a star span iff somebody is logged in, and that star is the outline star |
| StoryView.RenderAll | ui.js:157-163 | one rendered item per story, in input order |
| StoryView.RenderAllSnoc | ui.js:159-161 | rendering one more story appends one more item |
| StoryView.FillItem | ui.js:337-342 | every icon below the item's spans is filled, the trash icon included; every other field of the item is kept |
| StoryView.FillItemIdempotent | ui.js:337-342 | filling an item twice is filling it once |
| StoryView.AddTrash | ui.js:349-351 | a trash-can span goes in front of the item's spans, which are kept, as is every other field |
| StoryView.FirstIndex | ui.js:337 | `$('#' + id)`: the first item with the id, or -1 exactly when no item has it |
| StoryView.ApplyAtFirst | ui.js:337-342 | decorating by id keeps every item's id |
| StoryView.DecorateEach | ui.js:336-343 | the loop over the favorites or own stories keeps every item's id |
| StoryView.DecorateStep | ui.js:336-352 | one more lookup extends the closed form by one id |
| StoryView.DecorateEachClosedForm | ui.js:333-353 | the loop decorates exactly the items that are first with one of the ids, and leaves every other item as it was |
| StoryView.MarkFavoritesIdempotent | ui.js:333-344 | the favorites loop run twice equals running it once |
| StoryView.RenderedFirst | ui.js:157-163 | in a freshly rendered list of distinct ids each story's item is the one its id finds |
| StoryView.RenderedDecorated | ui.js:333-353 | after the loop each rendered story of the list carries the decoration |
| StoryView.FilledRendered | ui.js:281 | a rendered star, filled, is `fas fa-star favorite` |
| StoryView.FavoritesViewFilled | ui.js:110-127 | the Favorites view shows each favorite in order, with its id and host label and a filled star |
| StoryView.MyStoriesViewShape | ui.js:132-154 | the My Stories view shows each own story in order, with a trash can in front of a star that is filled iff the story is a favorite |
| StoryView.MarkedOwnItem | ui.js:143-152 | after the favorites loop an own story's item is filled iff a favorite and is still found by its id |
| StoryView.MyStoryItem | ui.js:143-153 | one item of the My Stories view: trash can, then the star |
| StoryView.NoStarsAppend | ui.js:278-282 | a page has no star iff neither of its parts has one |
| StoryView.AnonymousItemStarFree | ui.js:278-282 | an item rendered for an anonymous visitor has no star, nor does it after a trash can is added |
| StoryView.AnonymousHasNoStars | ui.js:278-282 | nothing rendered for an anonymous visitor has a star |
| StoryView.DecorateKeepsStars | ui.js:337-351 | decorating an item neither adds nor removes a star span |
| StoryView.Toggle | ui.js:402-416 | the branch follows the `favorite` class alone; the icon becomes outline only on "Favorite Removed!", filled only on "Favorite Added!", and any message that does not confirm the branch taken leaves it unchanged |
| StoryView.ToggleFlips | ui.js:402-416 | the icon ends with `favorite` iff it had it and removal was not confirmed, or it lacked it and the add was confirmed |
| StoryView.AddThenRemoveRestores | ui.js:402-416 | a confirmed add and then a confirmed remove give back any outline star icon, whatever other classes it has |
| StoryView.SetStar | ui.js:405-414 | only the clicked icon changes; every other span and every other field of the item stays |
| UiController.Favorited | ui.js:333-344 | addUSerFavorites keeps every item's id and leaves the page alone when nobody is logged in |
| UiController.FavoritedIdempotent | ui.js:333-344 | addUSerFavorites twice in a row equals once |
| UiController.ApplyAtFirstKeepsNoStars | ui.js:347-353 | a trash can added by id puts no star on a page without stars |
| UiController.NoStarsInsert | ui.js:267 | inserting a star-free item keeps a page without stars |
| UiController.AppendRendered | ui.js:265-268 | appending the next story's item after the rendered ones extends the rendering by that story |
| UiController.Page.Load | ui.js:209-225 | page load: the user is what `getLoggedInUser` makes of the token and username read from `localStorage`; the fetched stories rendered into the all-stories list, then the favorites filled; an empty page when the fetch rejects |
| UiController.Page.ShowFirstStories | ui.js:218-224 | on the empty page, the stories rendered with the favorites filled, whatever the second addUSerFavorites does |
| UiController.Page.AddUserFavorites | ui.js:333-344 | the new page is the old one with the user's favorites filled, and is unchanged without a user |
| UiController.Page.AppendTrashIcon | ui.js:347-353 | the new page is the old one with a trash can in front of the first item of each own story |
| UiController.Page.AllStoryMaker | ui.js:157-163 | the results are the stories rendered one by one, in order |
| UiController.Page.RenderAllStoriesList | ui.js:262-268 | the all-stories list is replaced by the stories rendered in order; the other lists are kept |
| UiController.Page.GenerateStories | ui.js:256-270 | nothing changes when the fetch rejects; otherwise the story list becomes the fetched stories, the all-stories list is replaced by their rendering, the other lists are kept, then the favorites are filled |
| UiController.Page.ShowAllStories | ui.js:92-97 | nothing changes when the fetch rejects; otherwise the same page as generateStories, because the second addUSerFavorites adds nothing |
| UiController.Page.ShowFavorites | ui.js:110-127 | nothing without a user; otherwise the favorites replace the all-stories and favorites lists, the notice is shown iff there are none, My Stories is kept, and the favorites are filled |
| UiController.Page.CreateMyStories | ui.js:132-154 | nothing without a user; if getOwnStories rejects, an empty page without notices; otherwise the own stories are the only items on the page, stars filled for favorites, a trash can on each, and the notice iff there are none |
| UiController.Page.HandleRemoveStory | ui.js:356-360 | nothing changes when the deletion rejects; otherwise My Stories is rebuilt as createMyStories does, from the own stories left after the deletion |
| UiController.Page.HandleFormSubmit | ui.js:365-394 | the inputs are returned and cleared; on success the new story heads the all-stories list without a trash can and heads My Stories with one; the notice goes; no other item changes |
| UiController.Page.HandleFavoriteClick | ui.js:399-417 | only the clicked icon changes, as the toggle says; the user's favorites become what the collaborator left |
| UiController.Page.SyncCurrentUserToLocalStorage | ui.js:436-441 | the token and username are saved when somebody is logged in; otherwise storage is unchanged |
| UiController.Page.LogOut | ui.js:70-75 | storage is emptied |
| UiController.Page.StartSession | ui.js:231-249 | a returned user is set and saved; addUSerFavorites runs over the old page, then generateStories completes, or changes nothing more if its fetch rejects |
| UiController.Page.LogIn | ui.js:30-44 | a rejected login changes no field; otherwise the user is set and saved, the favorites are filled on the old page, and the fetched stories are then rendered, or nothing more changes when the fetch rejects |
| UiController.Page.SignUp | ui.js:51-64 | a failed sign-up changes no field; otherwise the user is set and saved, the favorites are filled on the old page, and the fetched stories are then rendered, or nothing more changes when the fetch rejects |

## Left out

- DOM presentation is not modelled. This covers `show`, `hide`, `hideElements`,
  `slideToggle`, the nav-login toggle, the user-profile link, `showNavForLoggedInUser`,
  `displayUsername` and the forms' `reset`. Only the items, icons, notices and inputs are.
- The collaborators in api-classes.js are not part of this model. Their results are
  parameters, and a rejection is given as described above.
- A rejection of `User.getLoggedInUser` is not modelled.
- `Page.Load` does not model that a rejection on page load also ends the page script before
  any handler is bound (ui.js:23). It models only the page that is left.
- How `User.getLoggedInUser` turns the stored token and username into a user is not
  modelled, because it lives in the collaborator. `Page.Load` reads both keys with `GetItem`
  and takes the collaborator as a function of the two values.
- Async interleavings are not modelled. Only the order in which the awaited calls settle is
  modelled.
- `StartSession` covers the un-awaited `generateStories` in `loginAndSubmitForm` only in its
  settled order. Its fetch starts, `addUSerFavorites` runs over the old page, then the new
  stories are rendered. Other orders of the event loop are not covered.
- `fillUserProfile` and `convertDate` are left out. They write profile text through
  JavaScript's `Date`, which is foreign.
- `location.reload()` after logout is left out. It is a browser side effect. `LogOut`
  models only the `localStorage.clear()`.
- `Page.HandleFavoriteClick` assumes that the click lands on the star's `<i>` icon. A click
  on the surrounding span itself is not modelled.
- `Page.HandleRemoveStory` does not model which story was clicked. The id it reads is passed
  to the collaborator's `deleteStory`, whose outcome is the parameter.
- The relative order of the three containers is assumed. It is all stories, then favorites,
  then My Stories, because index.html is not part of this model.
- Ids are compared as strings. The escaping needed for the `'#' + id` selector is not
  modelled.
- `Page.HandleFormSubmit` does not model the submit form's `slideToggle`.
- Each menu handler's `hideElements` and `show` calls are left out.
- Each story is rendered to its fields and spans, not to the markup string.
