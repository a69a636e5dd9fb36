/** Articles and their taxonomy: the slug each record derives on its first
    save, the publish status and the view counter. The slug normalisation
    itself (the framework's `slugify`) is a parameter: nothing here depends on
    how it maps a name to a slug. */
module Articles {
  import opened Results
  import Rows
  import Users

  type ArticleId = nat
  type CategoryId = nat
  type TagId = nat

  /** The framework's slug normalisation, left uninterpreted. */
  type Slugify = string -> string

  /** A category row. `createdAt` is the creation stamp: `None` until the
      save that inserts the row. */
  datatype Category = Category(id: CategoryId, name: string, slug: string, description: string, createdAt: Option<int>)

  /** A tag row, with the same creation stamp as a category. */
  datatype Tag = Tag(id: TagId, name: string, slug: string, createdAt: Option<int>)

  /** The status choices of an article: 'draft' and 'published'. */
  datatype Status = Draft | Published

  /** An article row. The view counter is a non-negative integer column; the
      tags are the many-to-many association. `createdAt` is the creation stamp
      the inserting save sets, and `updatedAt` the modification stamp every
      full save sets to the current time; both are `None` on an instance that
      was never saved. */
  datatype Article = Article(
    id: ArticleId,
    title: string,
    slug: string,
    content: string,
    excerpt: string,
    author: Users.UserId,
    category: Option<CategoryId>,
    tags: set<TagId>,
    status: Status,
    viewsCount: nat,
    createdAt: Option<int>,
    updatedAt: Option<int>,
    publishedAt: Option<int>)

  /** The slug rule every `save` of the three models applies: an empty slug is
      derived from the human-readable `source`, a non-empty one is kept. */
  function SlugOnSave(slug: string, source: string, slugify: Slugify): (r: string)
    ensures slug != [] ==> r == slug
    ensures slug == [] ==> r == slugify(source)
  {
    if slug == [] then slugify(source) else slug
  }

  /** Once a slug is set, no later save changes it, whatever the name becomes. */
  lemma SlugFixedOnceSet(slug: string, source: string, newSource: string, slugify: Slugify)
    requires SlugOnSave(slug, source, slugify) != []
    ensures SlugOnSave(SlugOnSave(slug, source, slugify), newSource, slugify) == SlugOnSave(slug, source, slugify)
  {
  }

  /** `Category.save` at time `now`: derives the slug from the name when it
      is empty, and the inserting save stamps the creation time with `now`;
      nothing else changes. */
  function SaveCategory(c: Category, slugify: Slugify, now: int): (r: Category)
    ensures r.id == c.id && r.name == c.name && r.description == c.description
    ensures c.slug != [] ==> r.slug == c.slug
    ensures c.slug == [] ==> r.slug == slugify(c.name)
    ensures c.createdAt.None? ==> r.createdAt == Some(now)
    ensures c.createdAt.Some? ==> r.createdAt == c.createdAt
  {
    c.(slug := SlugOnSave(c.slug, c.name, slugify), createdAt := Rows.StampOnInsert(c.createdAt, now))
  }

  /** `Tag.save`: the same rule as for categories. */
  function SaveTag(t: Tag, slugify: Slugify, now: int): (r: Tag)
    ensures r.id == t.id && r.name == t.name
    ensures t.slug != [] ==> r.slug == t.slug
    ensures t.slug == [] ==> r.slug == slugify(t.name)
    ensures t.createdAt.None? ==> r.createdAt == Some(now)
    ensures t.createdAt.Some? ==> r.createdAt == t.createdAt
  {
    t.(slug := SlugOnSave(t.slug, t.name, slugify), createdAt := Rows.StampOnInsert(t.createdAt, now))
  }

  /** `Article.save` at time `now`: derives the slug from the title when it
      is empty, stamps the creation time with `now` when the save inserts the
      row, and stamps the modification time with `now` on every save; every
      other column is left as it was. */
  function SaveArticle(a: Article, slugify: Slugify, now: int): (r: Article)
    ensures r.(slug := a.slug, createdAt := a.createdAt, updatedAt := a.updatedAt) == a
    ensures r.updatedAt == Some(now)
    ensures a.createdAt.None? ==> r.createdAt == Some(now)
    ensures a.createdAt.Some? ==> r.createdAt == a.createdAt
    ensures a.slug != [] && a.createdAt.Some? ==> r == a.(updatedAt := Some(now))
    ensures a.slug == [] ==> r.slug == slugify(a.title)
  {
    a.(slug := SlugOnSave(a.slug, a.title, slugify),
       createdAt := Rows.StampOnInsert(a.createdAt, now),
       updatedAt := Some(now))
  }

  /** Renaming a saved category and saving it again later keeps its slug,
      once that slug is non-empty, and its creation stamp. */
  lemma CategorySlugSurvivesRename(c: Category, newName: string, slugify: Slugify, now: int, later: int)
    requires SaveCategory(c, slugify, now).slug != []
    ensures SaveCategory(SaveCategory(c, slugify, now).(name := newName), slugify, later).slug == SaveCategory(c, slugify, now).slug
    ensures SaveCategory(SaveCategory(c, slugify, now).(name := newName), slugify, later).createdAt == SaveCategory(c, slugify, now).createdAt
  {
  }

  /** Saving an article twice at the same instant gives the same record as
      saving it once; a later save changes only the modification stamp, so
      the creation stamp is the first save's; and a retitled article keeps the
      slug it already has. */
  lemma SaveArticleIdempotent(a: Article, newTitle: string, slugify: Slugify, now: int, later: int)
    ensures SaveArticle(SaveArticle(a, slugify, now), slugify, now) == SaveArticle(a, slugify, now)
    ensures SaveArticle(SaveArticle(a, slugify, now), slugify, later) == SaveArticle(a, slugify, now).(updatedAt := Some(later))
    ensures a.createdAt.None? ==> SaveArticle(SaveArticle(a, slugify, now), slugify, later).createdAt == Some(now)
    ensures SaveArticle(a, slugify, now).slug != [] ==>
              SaveArticle(SaveArticle(a, slugify, now).(title := newTitle), slugify, later).slug == SaveArticle(a, slugify, now).slug
  {
  }

  /** Saving a tag again, at any later time, gives the record its first save
      gave: the slug and the creation stamp are both fixed by then. */
  lemma SaveTagIdempotent(t: Tag, slugify: Slugify, now: int, later: int)
    ensures SaveTag(SaveTag(t, slugify, now), slugify, later) == SaveTag(t, slugify, now)
  {
  }

  /** A freshly constructed article before its first save: the field defaults
      are status 'draft', no views, no slug yet, neither stamp and no
      publication date. */
  function NewArticle(
    id: ArticleId, title: string, content: string, excerpt: string, author: Users.UserId,
    category: Option<CategoryId>, tags: set<TagId>): (a: Article)
    ensures a.status == Draft && !IsPublished(a)
    ensures a.viewsCount == 0 && a.slug == [] && a.publishedAt == None
    ensures a.createdAt == None && a.updatedAt == None
    ensures a.title == title && a.author == author && a.category == category && a.tags == tags
  {
    Article(id, title, [], content, excerpt, author, category, tags, Draft, 0, None, None, None)
  }

  /** `Article.is_published`: the status is 'published'. */
  function IsPublished(a: Article): (r: bool)
    ensures r <==> a.status == Published
    ensures r <==> a.status != Draft
  {
    a.status == Published
  }

  /** Neither a save nor a view publishes or unpublishes an article: only an
      explicit change of the status does. */
  lemma SavesKeepPublication(a: Article, slugify: Slugify, now: int)
    ensures IsPublished(SaveArticle(a, slugify, now)) == IsPublished(a)
    ensures IsPublished(IncrementViews(a, slugify)) == IsPublished(a)
    ensures IsPublished(a.(status := Published)) && !IsPublished(a.(status := Draft))
  {
  }

  /** `Article.increment_views` on the in-memory instance: the counter goes up
      by exactly one and the call runs through `Article.save`, so the slug rule
      may fill an empty slug. The save names only the counter column, and a
      save limited to named columns does not refresh the modification stamp,
      so nothing else changes. */
  function IncrementViews(a: Article, slugify: Slugify): (r: Article)
    ensures r.viewsCount == a.viewsCount + 1
    ensures r.(viewsCount := a.viewsCount, slug := a.slug) == a
    ensures a.slug != [] ==> r == a.(viewsCount := a.viewsCount + 1)
    ensures a.slug == [] ==> r.slug == slugify(a.title)
  {
    a.(viewsCount := a.viewsCount + 1, slug := SlugOnSave(a.slug, a.title, slugify))
  }

  /** The write `save(update_fields=['views_count'])` performs: the stored row
      takes the instance's counter and keeps every other column. */
  function WriteViewsColumn(row: Article, instance: Article): (r: Article)
    ensures r.viewsCount == instance.viewsCount
    ensures r.(viewsCount := row.viewsCount) == row
  {
    row.(viewsCount := instance.viewsCount)
  }

  /** In storage, incrementing the views of a loaded row changes exactly one
      column, by exactly one, even when the row's slug is empty. */
  lemma IncrementViewsStoresOneColumn(row: Article, slugify: Slugify)
    ensures WriteViewsColumn(row, IncrementViews(row, slugify)) == row.(viewsCount := row.viewsCount + 1)
  {
  }

  /** `n` successive calls of `increment_views` on the same instance. */
  function IncrementTimes(a: Article, n: nat, slugify: Slugify): Article
  {
    if n == 0 then a else IncrementViews(IncrementTimes(a, n - 1, slugify), slugify)
  }

  /** `n` increments in a row raise the counter by exactly `n`: the counter
      never decreases. */
  lemma {:induction false} IncrementTimesAddsN(a: Article, n: nat, slugify: Slugify)
    ensures IncrementTimes(a, n, slugify).viewsCount == a.viewsCount + n
    ensures IncrementTimes(a, n, slugify).viewsCount >= a.viewsCount
  {
    if n > 0 {
      IncrementTimesAddsN(a, n - 1, slugify);
    }
  }
}
