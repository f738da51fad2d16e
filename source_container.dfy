/** The value that the library's navigation history stores: a source
    (a folder or a reading list) identified by a persistent model index. */
module SourceContainer {

  /** The kind of source a container points at. */
  datatype SourceType = None | Folder | List

  /** A persistent model index. `NoIndex` is the invalid index `QModelIndex()`;
      `Persistent(id, valid)` is an index that pointed at model row `id` when it
      was made, and whose `valid` flag the model clears when that row goes away.
      Copies of one persistent index share its validity. */
  datatype ModelIndex = NoIndex | Persistent(id: nat, valid: bool)

  /** `QPersistentModelIndex::isValid()`. */
  predicate IsValid(i: ModelIndex)
  {
    i.Persistent? && i.valid
  }

  /** What the environment does to an index when row `id` is removed from the model. */
  function Invalidated(i: ModelIndex, id: nat): (r: ModelIndex)
    ensures i.Persistent? && i.id == id ==> !IsValid(r)
    ensures !(i.Persistent? && i.id == id) ==> r == i
  {
    match i
    case NoIndex => NoIndex
    case Persistent(k, v) => Persistent(k, v && k != id)
  }

  /** A source container: the index, the kind of source, and whether the index
      was the (invalid) root index when the container was made. */
  datatype Container = Container(sourceModelIndex: ModelIndex, sourceType: SourceType, isRootIndex: bool)

  /** What every constructor of the container guarantees: a root carries the
      null index, because a persistent index built from an invalid index is
      itself the null index. */
  predicate Constructible(c: Container)
  {
    c.isRootIndex ==> c.sourceModelIndex == NoIndex
  }

  /** The default constructor: no index, type `None`, not a root. */
  function DefaultContainer(): (c: Container)
    ensures c.sourceModelIndex == NoIndex && c.sourceType == None && !c.isRootIndex
    ensures !StillExists(c)
    ensures Constructible(c)
  {
    Container(NoIndex, None, false)
  }

  /** The constructor from an index and a type: the container is a root exactly
      when the index is invalid, so the container always exists when it is made.
      A `QPersistentModelIndex` made from an invalid index is the null index,
      so an invalid argument is stored as `NoIndex`. */
  function MakeContainer(index: ModelIndex, t: SourceType): (c: Container)
    ensures StillExists(c) && Constructible(c)
    ensures c.isRootIndex <==> !IsValid(index)
    ensures c.sourceType == t
    ensures c.sourceModelIndex == if IsValid(index) then index else NoIndex
  {
    Container(if IsValid(index) then index else NoIndex, t, !IsValid(index))
  }

  /** Every invalid index makes the same container, so `operator==` cannot tell
      a container made from a stale index from one made from `QModelIndex()`. */
  lemma InvalidIndexMakesRoot(index: ModelIndex, t: SourceType)
    requires !IsValid(index)
    ensures MakeContainer(index, t) == MakeContainer(NoIndex, t)
    ensures t == Folder ==> MakeContainer(index, t) == RootFolder()
  {
  }

  /** The root folder, always the first entry of a cleared history. */
  function RootFolder(): (c: Container)
    ensures StillExists(c) && c.isRootIndex && c.sourceType == Folder
  {
    MakeContainer(NoIndex, Folder)
  }

  /** A root container is assumed to exist forever; any other container exists
      while its persistent index is still valid. */
  predicate StillExists(c: Container)
  {
    c.isRootIndex || IsValid(c.sourceModelIndex)
  }

  /** `operator==`: three fields compared, which is exactly value equality of
      the container (usable on containers that no longer exist). */
  predicate Equal(a: Container, b: Container)
    ensures Equal(a, b) <==> a == b
  {
    a.sourceModelIndex == b.sourceModelIndex && a.sourceType == b.sourceType && a.isRootIndex == b.isRootIndex
  }

  /** `operator!=`: the negation of `operator==`. */
  predicate NotEqual(a: Container, b: Container)
    ensures NotEqual(a, b) <==> !Equal(a, b)
    ensures NotEqual(a, b) <==> a != b
  {
    !Equal(a, b)
  }

  /** `getSourceModelIndex()`: only for a container that still exists. */
  function GetSourceModelIndex(c: Container): (i: ModelIndex)
    requires StillExists(c)
    ensures IsValid(i) || c.isRootIndex
  {
    c.sourceModelIndex
  }

  /** `getType()`: only for a container that still exists. */
  function GetType(c: Container): (t: SourceType)
    requires StillExists(c)
  {
    c.sourceType
  }

  /** The accessors give back what the constructor was given, an invalid index
      coming back as the null index. */
  lemma MakeContainerRoundTrip(index: ModelIndex, t: SourceType)
    ensures GetSourceModelIndex(MakeContainer(index, t)) == if IsValid(index) then index else NoIndex
    ensures GetType(MakeContainer(index, t)) == t
  {
  }

  /** The environment invalidating row `id` in one container. */
  function InvalidatedContainer(c: Container, id: nat): (r: Container)
    ensures r.sourceType == c.sourceType && r.isRootIndex == c.isRootIndex
    ensures c.isRootIndex ==> StillExists(r)
    ensures StillExists(r) ==> StillExists(c)
    ensures c.sourceModelIndex.Persistent? && c.sourceModelIndex.id == id ==> (StillExists(r) <==> c.isRootIndex)
    ensures Constructible(c) ==> Constructible(r)
  {
    c.(sourceModelIndex := Invalidated(c.sourceModelIndex, id))
  }
}
