/**
 * The tree characteristic's callbacks (ChrTreeCallbacks, src/bluetooth.cpp)
 * and the blob store (namespace Tree, src/tree.cpp). The two call each
 * other: a completed write hands its blob to the store's setTree, and
 * setTree publishes the resulting tree back into the callbacks' full_data
 * (Bluetooth::setTree). Each callback runs to completion before the next.
 */
module TreeTransfer {
  import opened Bytes
  import opened Chunking
  import TreePolicy

  /** The state of the tree characteristic: the read session, the write session and the published blob. */
  class ChrTreeCallbacks {
    var dataOffset: nat
    var chunkNumber: byte
    var writeChunk: byte
    var writeData: seq<byte>
    var fullData: seq<byte>

    function ReadSession(): ReadState
      reads this
    {
      ReadState(dataOffset, chunkNumber)
    }

    function WriteSession(): WriteState
      reads this
    {
      WriteState(writeChunk, writeData)
    }

    ghost predicate Valid()
      reads this
    {
      ReadStateOk(ReadSession())
    }

    constructor ()
      ensures Valid()
      ensures ReadSession() == ReadIdle && WriteSession() == WriteIdle && fullData == []
    {
      dataOffset, chunkNumber := 0, CHUNK_FIRST_INDEX;
      writeChunk, writeData := CHUNK_FIRST_INDEX, [];
      fullData := [];
    }

    method ResetRead()
      modifies this`dataOffset, this`chunkNumber
      ensures Valid() && ReadSession() == ReadIdle
    {
      dataOffset := 0;
      chunkNumber := CHUNK_FIRST_INDEX;
    }

    method ResetWrite()
      modifies this`writeChunk, this`writeData
      ensures WriteSession() == WriteIdle
    {
      writeChunk := CHUNK_FIRST_INDEX;
      writeData := [];
    }

    /** reset(): both sessions back to their start; the published blob stays. */
    method Reset()
      modifies this`dataOffset, this`chunkNumber, this`writeChunk, this`writeData
      ensures Valid() && ReadSession() == ReadIdle && WriteSession() == WriteIdle
    {
      ResetRead();
      ResetWrite();
    }

    /** Bluetooth::setTree: the blob later reads serve. */
    method Publish(t: seq<byte>)
      modifies this`fullData
      ensures fullData == t
    {
      fullData := t;
    }

    /** onRead: the value served for one read under the MTU negotiated at that moment. */
    method OnRead(mtu: uint16) returns (value: seq<byte>)
      requires Valid() && MTU_OVERHEAD < mtu as int
      modifies this`dataOffset, this`chunkNumber
      ensures Valid()
      ensures ReadOutput(ReadSession(), value) == ReadStep(old(ReadSession()), fullData, mtu)
    {
      if chunkNumber > CHUNK_COUNT_MAX {
        value := [CHUNK_TRANSMISSION_ERROR];
        ResetRead();
      } else if dataOffset < |fullData| {
        var maxChunk := mtu as int - MTU_OVERHEAD;
        var chunkSize := Min(maxChunk, |fullData| - dataOffset);
        var chunkData := fullData[dataOffset .. dataOffset + chunkSize];
        value := [chunkNumber] + chunkData;
        chunkNumber := chunkNumber + 1;
        dataOffset := dataOffset + chunkSize;
      } else {
        value := [CHUNK_TRANSMISSION_END];
        ResetRead();
      }
    }

    /**
     * onWrite: one packet of a write transfer. A lone end sentinel hands the
     * accumulated blob to the store's setTree; every other packet either
     * extends the transfer or resets it.
     */
    method OnWrite(packet: seq<byte>, store: TreeStore)
      requires store.chr == this
      modifies this`writeChunk, this`writeData, this`fullData, store`tree, store`built, store`file, store`submitted
      ensures WriteSession() == WriteStep(old(WriteSession()), packet).next
      ensures packet == [CHUNK_TRANSMISSION_END] ==>
        && store.Status() == TreePolicy.SetTree(old(store.Status()), store.engineAccepts, old(writeData))
        && store.submitted == old(store.submitted) + [old(writeData)]
        && store.built == (if store.engineAccepts(old(writeData)) then old(writeData) else old(store.built))
        && fullData == store.tree
      ensures packet != [CHUNK_TRANSMISSION_END] ==>
        && store.Status() == old(store.Status())
        && store.submitted == old(store.submitted)
        && store.built == old(store.built)
        && fullData == old(fullData)
      ensures old(store.Valid()) ==> store.Valid()
    {
      if |packet| == 1 && packet[0] == CHUNK_TRANSMISSION_END {
        store.SetTree(writeData);
        ResetWrite();
      } else if |packet| <= 1 {
        ResetWrite();
      } else {
        if packet[0] == writeChunk {
          writeData := writeData + packet[1..];
          writeChunk := Inc(writeChunk);
        } else {
          ResetWrite();
        }
      }
    }
  }

  /**
   * The blob store: the current tree, the tree file, the engine's verdict on
   * a blob and its external triggers, and the characteristic it publishes to.
   */
  class TreeStore {
    /** accepts(blob) holds exactly when engine.build(blob) returns instead of throwing. */
    const engineAccepts: seq<byte> -> bool
    /** triggers(blob) is what engine.listExternalTriggers() returns once the engine has built blob. */
    const engineTriggers: seq<byte> -> seq<byte>
    const chr: ChrTreeCallbacks

    var tree: seq<byte>
    /** The last blob engine.build accepted, which the engine runs; [] before any build succeeds. */
    var built: seq<byte>
    /** The contents of /tree.bin; None when the file does not exist. */
    var file: Option<seq<byte>>
    /** Every id passed to engine.triggerExternalTrigger, in order. */
    var firedTriggers: seq<byte>
    /** Every blob passed to setTree, in order. */
    ghost var submitted: seq<seq<byte>>

    function Status(): TreePolicy.StoreState
      reads this
    {
      TreePolicy.StoreState(tree, file)
    }

    /** The blob the reader serves is always the store's current tree. */
    ghost predicate Valid()
      reads this, chr
    {
      chr.fullData == tree && chr.Valid()
    }

    /** The program's static state before init: empty tree, fresh characteristic sessions. */
    constructor (accepts: seq<byte> -> bool, triggers: seq<byte> -> seq<byte>, storedFile: Option<seq<byte>>)
      ensures Valid() && fresh(chr)
      ensures engineAccepts == accepts && engineTriggers == triggers
      ensures tree == [] && built == [] && file == storedFile && firedTriggers == [] && submitted == []
      ensures chr.ReadSession() == ReadIdle && chr.WriteSession() == WriteIdle
    {
      engineAccepts := accepts;
      engineTriggers := triggers;
      chr := new ChrTreeCallbacks();
      tree := [];
      built := [];
      file := storedFile;
      firedTriggers := [];
      submitted := [];
    }

    /** storeTreeToStorage: remove the file for a tree of at most one byte, otherwise write it whole. */
    method StoreTreeToStorage(t: seq<byte>)
      modifies this`file
      ensures file == TreePolicy.StoredFile(t)
      ensures |t| <= 1 <==> file.None?
      ensures file.Some? ==> file.value == t
    {
      if |t| <= 1 {
        file := None;
      } else {
        file := Some(t);
      }
    }

    /** getTree: a copy of the current tree. */
    method GetTree() returns (result: seq<byte>)
      ensures result == tree
    {
      result := tree;
    }

    /** setTree: build, then adopt and persist or clear, then publish the outcome to the reader. */
    method SetTree(newTree: seq<byte>)
      modifies this`tree, this`built, this`file, this`submitted, chr`fullData
      ensures Status() == TreePolicy.SetTree(old(Status()), engineAccepts, newTree)
      // the engine runs the new blob when it builds, and otherwise keeps what it ran
      ensures built == (if engineAccepts(newTree) then newTree else old(built))
      ensures tree == [] || tree == built
      ensures submitted == old(submitted) + [newTree]
      ensures chr.fullData == tree
      ensures old(chr.Valid()) ==> Valid()
    {
      var builds := engineAccepts(newTree);
      if builds {
        built := newTree;
        tree := newTree;
        StoreTreeToStorage(tree);
      } else {
        tree := [];
      }
      chr.Publish(tree);
      submitted := submitted + [newTree];
    }

    /** init: set the tree from the file; if that leaves it empty, set [version]. */
    method Init(version: byte)
      modifies this`tree, this`built, this`file, this`submitted, chr`fullData
      ensures Status() == TreePolicy.Boot(old(Status()), engineAccepts, version)
      ensures var first := TreePolicy.SetTree(old(Status()), engineAccepts, TreePolicy.Loaded(old(file)));
              submitted == old(submitted) + [TreePolicy.Loaded(old(file))] + (if first.tree == [] then [[version]] else [])
      ensures chr.fullData == tree
      ensures old(chr.Valid()) ==> Valid()
    {
      SetTree(TreePolicy.Loaded(file));
      if tree == [] {
        SetTree([version]);
      }
    }

    /** listExternalTriggers, passed through to the engine. */
    method ListExternalTriggers() returns (ids: seq<byte>)
      ensures ids == engineTriggers(built)
    {
      ids := engineTriggers(built);
    }

    /** triggerExternalTrigger, passed through to the engine. */
    method TriggerExternalTrigger(id: byte)
      modifies this`firedTriggers
      ensures firedTriggers == old(firedTriggers) + [id]
    {
      firedTriggers := firedTriggers + [id];
    }
  }

  /** ServerCallbacks::onConnect: a new client never continues another client's transfer. */
  method OnConnect(chr: ChrTreeCallbacks)
    modifies chr`dataOffset, chr`chunkNumber, chr`writeChunk, chr`writeData
    ensures chr.Valid() && chr.ReadSession() == ReadIdle && chr.WriteSession() == WriteIdle
  {
    chr.Reset();
  }

  /** ChrTriggerCallbacks::onRead: the engine's list of external triggers. */
  method TriggerOnRead(store: TreeStore) returns (value: seq<byte>)
    ensures value == store.engineTriggers(store.built)
  {
    value := store.ListExternalTriggers();
  }

  /** ChrTriggerCallbacks::onWrite: exactly one byte fires that trigger; any other length does nothing. */
  method TriggerOnWrite(value: seq<byte>, store: TreeStore)
    modifies store`firedTriggers
    ensures |value| == 1 ==> store.firedTriggers == old(store.firedTriggers) + [value[0]]
    ensures |value| != 1 ==> store.firedTriggers == old(store.firedTriggers)
  {
    if |value| != 1 {
      return;
    }
    store.TriggerExternalTrigger(value[0]);
  }

  /**
   * A client reading a published 50-byte blob under MTU 36 gets chunks
   * 1, 2 and 3 and then the end sentinel, and the reader is idle again.
   */
  method ReadFiftyBytes(blob: seq<byte>) returns (v1: seq<byte>, v2: seq<byte>, v3: seq<byte>, v4: seq<byte>, after: ReadState)
    requires |blob| == 50
    ensures v1 == [1] + blob[0..20] && v2 == [2] + blob[20..40] && v3 == [3] + blob[40..50]
    ensures v4 == [CHUNK_TRANSMISSION_END] && after == ReadIdle
  {
    var chr := new ChrTreeCallbacks();
    chr.Publish(blob);
    v1 := chr.OnRead(36);
    v2 := chr.OnRead(36);
    v3 := chr.OnRead(36);
    v4 := chr.OnRead(36);
    after := chr.ReadSession();
  }

  /** A client connecting in the middle of a read traversal is served from chunk 1 again. */
  method ReconnectMidRead(blob: seq<byte>) returns (v1: seq<byte>, v2: seq<byte>, again: seq<byte>)
    requires |blob| == 50
    ensures v1 == [1] + blob[0..20] && v2 == [2] + blob[20..40]
    ensures again == [1] + blob[0..20]
  {
    var chr := new ChrTreeCallbacks();
    chr.Publish(blob);
    v1 := chr.OnRead(36);
    v2 := chr.OnRead(36);
    OnConnect(chr);
    again := chr.OnRead(36);
  }

  /**
   * Writes [1,a,b,c], [2,d,e], [0] hand [a,b,c,d,e] to setTree exactly once;
   * the store then holds and publishes it if it builds, and nothing otherwise.
   */
  method WriteFiveBytes(accepts: seq<byte> -> bool, a: byte, b: byte, c: byte, d: byte, e: byte)
    returns (stored: seq<byte>, published: seq<byte>, ghost handed: seq<seq<byte>>)
    ensures handed == [[a, b, c, d, e]]
    ensures stored == published == (if accepts([a, b, c, d, e]) then [a, b, c, d, e] else [])
  {
    var store := new TreeStore(accepts, _ => [], None);
    var chr := store.chr;
    chr.OnWrite([1, a, b, c], store);
    chr.OnWrite([2, d, e], store);
    assert chr.writeData == [a, b, c, d, e];
    chr.OnWrite([CHUNK_TRANSMISSION_END], store);
    stored := store.GetTree();
    published := chr.fullData;
    handed := store.submitted;
  }

  /** A chunk-number mismatch in the middle of a write discards it; a fresh transfer from 1 then succeeds. */
  method WriteAfterMismatch(accepts: seq<byte> -> bool, a: byte, b: byte, x: byte, y: byte)
    returns (stored: seq<byte>, ghost handed: seq<seq<byte>>)
    ensures handed == [[x, y]]
    ensures stored == (if accepts([x, y]) then [x, y] else [])
  {
    var store := new TreeStore(accepts, _ => [], None);
    var chr := store.chr;
    chr.OnWrite([1, a], store);
    assert chr.WriteSession() == WriteState(2, [a]);
    chr.OnWrite([3, b], store);
    assert chr.WriteSession() == WriteIdle;
    chr.OnWrite([1, x, y], store);
    assert chr.writeData == [x, y];
    chr.OnWrite([CHUNK_TRANSMISSION_END], store);
    stored := store.GetTree();
    handed := store.submitted;
  }

  /**
   * A lone end sentinel with nothing accumulated hands an empty blob to
   * setTree, which clears the tree whatever was published before. The tree
   * file keeps the previous blob for the next boot unless the engine accepts
   * the empty blob, in which case storeTreeToStorage removes it.
   */
  method LoneEndClearsTree(accepts: seq<byte> -> bool, blob: seq<byte>)
    returns (before: seq<byte>, after: seq<byte>, fileAfter: Option<seq<byte>>, ghost handed: seq<seq<byte>>)
    requires accepts(blob) && |blob| > 1
    ensures before == blob && after == []
    ensures fileAfter == (if accepts([]) then None else Some(blob))
    ensures handed == [blob, []]
  {
    var store := new TreeStore(accepts, _ => [], None);
    store.SetTree(blob);
    before := store.GetTree();
    store.chr.OnWrite([CHUNK_TRANSMISSION_END], store);
    after := store.GetTree();
    fileAfter := store.file;
    handed := store.submitted;
  }
}
