/** The admin dashboard's project editor: the draft project (a record whose
    fields may all be absent), the ordered list of images being edited with
    its designated main image, the two drag positions, and the save step that
    validates the draft and splits the images into `imageUrl` and `gallery`.
    Also the tag editor's save step. */
module AdminEditor {
  import opened Types
  import opened Sequences
  import opened Selection
  import ProjectDetail

  /** A `Partial<Project>`: every field may be absent. */
  datatype Draft = Draft(
    id: Option<string>,
    title: Option<string>,
    client: Option<string>,
    description: Option<string>,
    date: Option<string>,
    tags: Option<seq<string>>,
    featured: Option<bool>,
    videoUrl: Option<string>)

  const EmptyDraft := Draft(None, None, None, None, None, None, None, None)

  /** The draft of an existing project: all its fields. */
  function DraftOf(p: Project): Draft
  {
    Draft(Some(p.id), Some(p.title), Some(p.client), Some(p.description), Some(p.date),
          Some(p.tags), p.featured, p.videoUrl)
  }

  datatype SaveError = MissingTitleOrClient | NoImages

  /** The persisted-project invariant: a main image, never repeated in the
      gallery, and no empty image entry. */
  predicate Persistable(p: Project)
  {
    p.imageUrl != "" && p.imageUrl !in p.gallery && "" !in p.gallery
  }

  /** The image list put into the editor for an existing project: main image,
      then the gallery, with empty entries dropped. */
  function LoadImages(p: Project): (r: seq<string>)
    ensures "" !in r
    ensures forall x :: x in r <==> x != "" && (x == p.imageUrl || x in p.gallery)
    ensures forall x :: multiset(r)[x] == if x != "" then multiset([p.imageUrl] + p.gallery)[x] else 0
    ensures IsSubsequence(r, [p.imageUrl] + p.gallery)
  {
    var all := [p.imageUrl] + p.gallery;
    var nonEmpty := (x: string) => x != "";
    FilterCount(all, nonEmpty);
    FilterMembership(all, nonEmpty);
    FilterIsSubsequence(all, nonEmpty);
    Filter(all, nonEmpty)
  }

  /** The drop step of drag-to-reorder: take the image at `from` out, then
      insert it at `to` of the shortened list. */
  function Reorder(images: seq<string>, from: nat, to: nat): (r: seq<string>)
    requires from < |images| && to < |images|
    ensures |r| == |images|
    ensures multiset(r) == multiset(images)
    ensures r[to] == images[from]
    ensures RemoveAt(r, to) == RemoveAt(images, from)
  {
    var rest := RemoveAt(images, from);
    RemoveAtMultiset(images, from);
    InsertAtMultiset(rest, to, images[from]);
    InsertAtRemoveAt(rest, to, images[from]);
    InsertAt(rest, to, images[from])
  }

  /** Dropping an image where it was picked up changes nothing. */
  lemma ReorderInPlace(images: seq<string>, i: nat)
    requires i < |images|
    ensures Reorder(images, i, i) == images
  {
    RemoveAtInsertAt(images, i);
  }

  /** Dragging the image back from `to` to `from` undoes a drag. */
  lemma ReorderUndo(images: seq<string>, from: nat, to: nat)
    requires from < |images| && to < |images|
    ensures Reorder(Reorder(images, from, to), to, from) == images
  {
    var r := Reorder(images, from, to);
    RemoveAtInsertAt(images, from);
    assert Reorder(r, to, from) == InsertAt(RemoveAt(r, to), from, r[to]);
  }

  /** The save step of the project form. The draft needs a title and a client
      and the editor at least one image; otherwise nothing is produced. The
      main image is the chosen one, or the first image when none is chosen;
      the gallery is every other image, in order, and never holds the main
      image. Absent fields take their defaults; the record has no video link. */
  function SaveProject(d: Draft, images: seq<string>, mainImage: string, freshId: string, today: string): (r: Result<Project, SaveError>)
    ensures r == Err(MissingTitleOrClient) <==> !Truthy(d.title) || !Truthy(d.client)
    ensures r == Err(NoImages) <==> Truthy(d.title) && Truthy(d.client) && |images| == 0
    ensures r.Ok? ==> r.value.imageUrl == (if mainImage != "" then mainImage else images[0])
    ensures r.Ok? ==> r.value.imageUrl !in r.value.gallery
    ensures r.Ok? ==> forall x :: x != r.value.imageUrl ==> multiset(r.value.gallery)[x] == multiset(images)[x]
    ensures r.Ok? ==> IsSubsequence(r.value.gallery, images)
    ensures r.Ok? ==> r.value.title == d.title.value && r.value.client == d.client.value
    ensures r.Ok? ==> r.value.id == StringOr(d.id, freshId)
    ensures r.Ok? ==> r.value.description == StringOr(d.description, "")
    ensures r.Ok? ==> r.value.date == StringOr(d.date, today)
    ensures r.Ok? ==> r.value.tags == d.tags.GetOr([])
    ensures r.Ok? ==> r.value.featured == Some(d.featured == Some(true))
    ensures r.Ok? ==> r.value.videoUrl.None?
  {
    if !Truthy(d.title) || !Truthy(d.client) then Err(MissingTitleOrClient)
    else if |images| == 0 then Err(NoImages)
    else
      var main := if mainImage != "" then mainImage else images[0];
      Ok(Project(
        StringOr(d.id, freshId),
        d.title.value,
        StringOr(d.description, ""),
        d.client.value,
        StringOr(d.date, today),
        d.tags.GetOr([]),
        main,
        RemoveAll(images, main),
        Some(d.featured == Some(true)),
        None))
  }

  /** From an editor whose images are non-empty and whose main image is empty
      or one of them, a save yields a persistable project. The detail page
      then shows the chosen main image followed by every other editor image in
      order; that is the same set of images, and exactly the editor's images
      with their counts when the main image occurs once among them. */
  lemma SaveFromValidEditor(d: Draft, images: seq<string>, mainImage: string, freshId: string, today: string)
    requires "" !in images && (mainImage == "" || mainImage in images)
    ensures SaveProject(d, images, mainImage, freshId, today).Ok? ==>
      var p := SaveProject(d, images, mainImage, freshId, today).value;
      && Persistable(p)
      && p.imageUrl in images
      && ProjectDetail.DisplayImages(p) == [p.imageUrl] + RemoveAll(images, p.imageUrl)
      && ProjectDetail.DisplayImages(p)[0] == (if mainImage != "" then mainImage else images[0])
      && (forall x :: x in ProjectDetail.DisplayImages(p) <==> x in images)
      && (multiset(images)[p.imageUrl] == 1 ==> multiset(ProjectDetail.DisplayImages(p)) == multiset(images))
  {
    var r := SaveProject(d, images, mainImage, freshId, today);
    if r.Ok? {
      var p := r.value;
      forall x ensures x in p.gallery <==> x in images && x != p.imageUrl {
        assert x in p.gallery <==> x in multiset(p.gallery);
        assert x in images <==> x in multiset(images);
      }
      var shown := ProjectDetail.DisplayImages(p);
      if multiset(images)[p.imageUrl] == 1 {
        assert multiset(shown) == multiset{p.imageUrl} + multiset(p.gallery);
        forall x ensures multiset(shown)[x] == multiset(images)[x] {
        }
      }
    }
  }

  /** The editor opens a persistable project with exactly the images the
      detail page shows, in the same order. */
  lemma EditorLoadsDisplayedImages(p: Project)
    requires Persistable(p)
    ensures LoadImages(p) == ProjectDetail.DisplayImages(p)
  {
    FilterKeepsAll([p.imageUrl] + p.gallery, (x: string) => x != "");
  }

  /** Opening an existing persistable project and saving it unchanged yields
      the project itself as the record to save, except that `featured` is
      made explicit and the record has no video link. */
  lemma EditThenSaveUnchanged(p: Project, freshId: string, today: string)
    requires Persistable(p) && p.title != "" && p.client != "" && p.id != "" && p.date != ""
    ensures SaveProject(DraftOf(p), LoadImages(p), p.imageUrl, freshId, today)
         == Ok(p.(featured := Some(p.featured == Some(true)), videoUrl := None))
  {
    var all := [p.imageUrl] + p.gallery;
    var nonEmpty := (x: string) => x != "";
    FilterKeepsAll(all, nonEmpty);
    RemoveAllPrepended(p.imageUrl, p.gallery);
  }

  /** A `Partial<Tag>`. */
  datatype TagDraft = TagDraft(id: Option<string>, name: Option<string>, category: Option<Category>)

  function TagDraftOf(t: Tag): TagDraft
  {
    TagDraft(Some(t.id), Some(t.name), Some(t.category))
  }

  /** The save step of the tag form: nothing without a name; otherwise the
      draft's id or a fresh one, and work type unless a category was chosen. */
  function SaveTag(d: TagDraft, freshId: string): (r: Option<Tag>)
    ensures r.None? <==> !Truthy(d.name)
    ensures r.Some? ==> r.value.name == d.name.value
    ensures r.Some? ==> r.value.id == StringOr(d.id, freshId)
    ensures r.Some? ==> r.value.category == d.category.GetOr(WorkType)
  {
    if !Truthy(d.name) then None
    else Some(Tag(StringOr(d.id, freshId), d.name.value, d.category.GetOr(WorkType)))
  }

  /** Saving an existing named tag unchanged gives the tag back. */
  lemma EditTagThenSaveUnchanged(t: Tag, freshId: string)
    requires t.id != "" && t.name != ""
    ensures SaveTag(TagDraftOf(t), freshId) == Some(t)
  {
  }

  /** The editor's state. `images` is the ordered image list, `mainImage` the
      designated main image (a value, not a position), `dragItem` and
      `dragOverItem` the positions recorded by the drag events. */
  class ProjectEditor {
    var draft: Draft
    var images: seq<string>
    var mainImage: string
    var dragItem: Option<nat>
    var dragOverItem: Option<nat>
    /** Whether the form is open. */
    var editing: bool

    /** No image is empty, and the main image is empty or one of the images. */
    ghost predicate Valid()
      reads this
    {
      "" !in images && (mainImage == "" || mainImage in images)
    }

    constructor ()
      ensures Valid()
      ensures draft == EmptyDraft && images == [] && mainImage == ""
      ensures dragItem.None? && dragOverItem.None? && !editing
    {
      draft := EmptyDraft;
      editing := false;
      images := [];
      mainImage := "";
      dragItem := None;
      dragOverItem := None;
    }

    /** A new project: an empty draft dated `today`, no images. */
    method StartNewProject(today: string)
      modifies this
      ensures Valid()
      ensures draft == EmptyDraft.(date := Some(today)) && images == [] && mainImage == "" && editing
      ensures dragItem == old(dragItem) && dragOverItem == old(dragOverItem)
    {
      editing := true;
      draft := EmptyDraft.(date := Some(today));
      images := [];
      mainImage := "";
    }

    /** Editing `p`: its fields, its non-empty images main first, and its main image. */
    method StartEditProject(p: Project)
      modifies this
      ensures Valid()
      ensures draft == DraftOf(p) && images == LoadImages(p) && mainImage == p.imageUrl && editing
      ensures dragItem == old(dragItem) && dragOverItem == old(dragOverItem)
    {
      editing := true;
      draft := DraftOf(p);
      images := LoadImages(p);
      mainImage := p.imageUrl;
    }

    /** Toggle a tag id in the draft's tags (an absent list counts as empty). */
    method ToggleProjectTag(tagId: string)
      requires Valid()
      modifies this
      ensures Valid()
      ensures draft == old(draft).(tags := Some(Toggle(old(draft).tags.GetOr([]), tagId)))
      ensures images == old(images) && mainImage == old(mainImage)
      ensures dragItem == old(dragItem) && dragOverItem == old(dragOverItem)
      ensures editing == old(editing)
    {
      draft := draft.(tags := Some(Toggle(draft.tags.GetOr([]), tagId)));
    }

    /** One finished upload: the image goes to the end, and becomes the main
        image when the list was empty. */
    method AppendImage(url: string)
      requires Valid() && url != ""
      modifies this
      ensures Valid()
      ensures images == old(images) + [url]
      ensures mainImage == if old(images) == [] then url else old(mainImage)
      ensures draft == old(draft)
      ensures dragItem == old(dragItem) && dragOverItem == old(dragOverItem)
      ensures editing == old(editing)
    {
      if |images| == 0 {
        mainImage := url;
      }
      images := images + [url];
    }

    /** A drag starts on the image at `position`. */
    method DragStart(position: nat)
      requires position < |images|
      modifies this
      ensures dragItem == Some(position) && dragOverItem == old(dragOverItem)
      ensures draft == old(draft) && images == old(images) && mainImage == old(mainImage)
      ensures editing == old(editing)
    {
      dragItem := Some(position);
    }

    /** The drag enters the image at `position`. */
    method DragEnter(position: nat)
      requires position < |images|
      modifies this
      ensures dragOverItem == Some(position) && dragItem == old(dragItem)
      ensures draft == old(draft) && images == old(images) && mainImage == old(mainImage)
      ensures editing == old(editing)
    {
      dragOverItem := Some(position);
    }

    /** The drag ends. Without both positions nothing happens; otherwise the
        dragged image moves to the entered position and both positions are
        forgotten. */
    method Drop()
      requires Valid()
      requires dragItem.Some? && dragOverItem.Some? ==> dragItem.value < |images| && dragOverItem.value < |images|
      modifies this
      ensures Valid()
      ensures old(dragItem).None? || old(dragOverItem).None? ==>
        images == old(images) && dragItem == old(dragItem) && dragOverItem == old(dragOverItem)
      ensures old(dragItem).Some? && old(dragOverItem).Some? ==>
        images == Reorder(old(images), old(dragItem).value, old(dragOverItem).value)
        && dragItem.None? && dragOverItem.None?
      ensures draft == old(draft) && mainImage == old(mainImage)
      ensures editing == old(editing)
    {
      if dragItem.None? || dragOverItem.None? {
        return;
      }
      var from, to := dragItem.value, dragOverItem.value;
      var copy := images;
      var content := copy[from];
      copy := copy[..from] + copy[from + 1..];
      copy := copy[..to] + [content] + copy[to..];
      dragItem, dragOverItem := None, None;
      assert copy == Reorder(images, from, to);
      assert forall x :: x in copy <==> x in multiset(copy);
      assert forall x :: x in images <==> x in multiset(images);
      images := copy;
    }

    /** Remove the image at `idx`, and only it. When its value was the main
        image, the main image becomes the new first image, or empty. */
    method RemoveImage(idx: nat)
      requires Valid() && idx < |images|
      modifies this
      ensures Valid()
      ensures images == RemoveAt(old(images), idx)
      ensures mainImage == if old(images)[idx] == old(mainImage)
                           then (if images != [] then images[0] else "")
                           else old(mainImage)
      ensures draft == old(draft)
      ensures dragItem == old(dragItem) && dragOverItem == old(dragOverItem)
      ensures editing == old(editing)
    {
      var removed := images[idx];
      var newImages := RemoveAt(images, idx);
      RemoveAtMultiset(images, idx);
      assert forall x :: x in newImages <==> x in multiset(newImages);
      assert forall x :: x in images <==> x in multiset(images);
      images := newImages;
      if removed == mainImage {
        mainImage := if |newImages| > 0 then newImages[0] else "";
      }
    }

    /** Choose one of the images as the main image. */
    method SetMainImage(img: string)
      requires Valid() && img in images
      modifies this
      ensures Valid()
      ensures mainImage == img
      ensures draft == old(draft) && images == old(images)
      ensures dragItem == old(dragItem) && dragOverItem == old(dragOverItem)
      ensures editing == old(editing)
    {
      mainImage := img;
    }

    /** Save: on success the project is produced and the draft is cleared;
        when validation fails nothing changes. */
    method Save(freshId: string, today: string) returns (r: Result<Project, SaveError>)
      requires Valid()
      modifies this
      ensures Valid()
      ensures r == SaveProject(old(draft), images, mainImage, freshId, today)
      ensures r.Ok? ==> Persistable(r.value) && r.value.imageUrl in images
      ensures draft == (if r.Ok? then EmptyDraft else old(draft))
      ensures editing == (if r.Ok? then false else old(editing))
      ensures images == old(images) && mainImage == old(mainImage)
      ensures dragItem == old(dragItem) && dragOverItem == old(dragOverItem)
    {
      r := SaveProject(draft, images, mainImage, freshId, today);
      SaveFromValidEditor(draft, images, mainImage, freshId, today);
      if r.Ok? {
        draft := EmptyDraft;
        editing := false;
      }
    }
  }
}
