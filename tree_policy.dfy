/**
 * The decisions of the blob store (src/tree.cpp): whether setTree adopts a
 * candidate or clears the tree, what storeTreeToStorage leaves in the tree
 * file, and how init falls back to a minimal tree. The engine's verdict is a
 * parameter `accepts`: accepts(blob) holds exactly when engine.build(blob)
 * returns instead of throwing.
 */
module TreePolicy {
  import opened Bytes

  /** The current tree and the contents of the tree file (None when there is no file). */
  datatype StoreState = StoreState(tree: seq<byte>, file: Option<seq<byte>>)

  /** The file after storeTreeToStorage(t): removed for one byte or less, otherwise the whole of t. */
  function StoredFile(t: seq<byte>): Option<seq<byte>>
  {
    if |t| <= 1 then None else Some(t)
  }

  /** loadTreeFromStorage: the file's bytes, or nothing when there is no file. */
  function Loaded(file: Option<seq<byte>>): seq<byte>
  {
    match file
    case None => []
    case Some(bytes) => bytes
  }

  /** setTree: adopt and persist the candidate when it builds, otherwise clear the tree and leave the file alone. */
  function SetTree(st: StoreState, accepts: seq<byte> -> bool, candidate: seq<byte>): StoreState
  {
    if accepts(candidate) then StoreState(candidate, StoredFile(candidate))
    else StoreState([], st.file)
  }

  /** init: set the stored tree, and if that leaves the tree empty, set the one-byte tree [version]. */
  function Boot(st: StoreState, accepts: seq<byte> -> bool, version: byte): StoreState
  {
    var first := SetTree(st, accepts, Loaded(st.file));
    if first.tree == [] then SetTree(first, accepts, [version]) else first
  }

  /**
   * setTree never keeps the previous tree: the result is the candidate if it
   * builds, and empty otherwise; the file changes only on success.
   */
  lemma {:induction false} SetTreeAdoptsOrClears(st: StoreState, accepts: seq<byte> -> bool, candidate: seq<byte>)
    ensures var after := SetTree(st, accepts, candidate);
            && (accepts(candidate) ==> after.tree == candidate)
            && (!accepts(candidate) ==> after.tree == [] && after.file == st.file)
  {
  }

  /** Submitting an empty blob always leaves an empty tree, whatever the engine says. */
  lemma {:induction false} EmptyCandidateClears(st: StoreState, accepts: seq<byte> -> bool)
    ensures SetTree(st, accepts, []).tree == []
  {
  }

  /**
   * What a successful setTree persists is what loadTreeFromStorage reads back:
   * the whole tree when it is longer than one byte, and nothing otherwise.
   */
  lemma {:induction false} PersistRoundTrip(st: StoreState, accepts: seq<byte> -> bool, candidate: seq<byte>)
    requires accepts(candidate)
    ensures Loaded(SetTree(st, accepts, candidate).file) == (if |candidate| <= 1 then [] else candidate)
  {
  }

  /** After init the tree is either empty or a blob the engine accepts; it is empty only if [version] fails to build. */
  lemma {:induction false} BootResult(st: StoreState, accepts: seq<byte> -> bool, version: byte)
    ensures var t := Boot(st, accepts, version).tree;
            && (t != [] ==> accepts(t))
            && (accepts([version]) ==> t != [])
  {
  }

  /** A persisted tree of two or more bytes that builds is the tree after the next init. */
  lemma {:induction false} BootRestoresPersisted(st: StoreState, accepts: seq<byte> -> bool, candidate: seq<byte>, version: byte)
    requires accepts(candidate) && |candidate| > 1
    ensures Boot(SetTree(st, accepts, candidate), accepts, version).tree == candidate
  {
  }

  /**
   * A one-byte tree is adopted but never persisted: after the next init the
   * tree is the fallback [version] (when that builds), not the one-byte tree.
   */
  lemma {:induction false} OneByteTreeNotKeptAcrossBoot(st: StoreState, accepts: seq<byte> -> bool, b: byte, version: byte)
    requires accepts([b]) && accepts([version])
    ensures SetTree(st, accepts, [b]).tree == [b]
    ensures Boot(SetTree(st, accepts, [b]), accepts, version).tree == [version]
  {
  }

  /** A stored blob that fails to build is removed by init once the fallback tree builds. */
  lemma {:induction false} BootRemovesBrokenFile(st: StoreState, accepts: seq<byte> -> bool, version: byte)
    requires st.file.Some? && !accepts(st.file.value) && accepts([version])
    ensures Boot(st, accepts, version) == StoreState([version], None)
  {
  }
}
