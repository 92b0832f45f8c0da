/** UpdatePipeline of internal/server/storage_pipeline.go: the largest mask loop, nine fields written in place. */
module PipelineStorage {
  import opened Cells
  import opened FieldMasks
  import opened Wrappers

  /** A pipeline whose label maps, lists and nested messages are values, or references to them. */
  datatype Fields<L, S, P> = Fields(
    name: string, uid: string, etag: string, createTime: int, updateTime: int,
    labels: L, annotations: L, displayName: string, destinations: S, mediations: S, cryptoKeyName: string,
    inputPayloadFormat: P, loggingConfig: P, retryPolicy: P)

  type Pipeline = Fields<map<string, string>, seq<string>, Option<string>>

  const MUTABLE: set<string> := {
    "labels", "annotations", "display_name", "destinations", "mediations", "crypto_key_name",
    "input_payload_format", "logging_config", "retry_policy"}

  /** The nine mutable fields under a mask; everything else as stored. */
  function Merged<L, S, P>(stored: Fields<L, S, P>, req: Fields<L, S, P>, mask: FieldMask): Fields<L, S, P> {
    stored.(
      labels := if Masks(mask, "labels") then req.labels else stored.labels,
      annotations := if Masks(mask, "annotations") then req.annotations else stored.annotations,
      displayName := if Masks(mask, "display_name") then req.displayName else stored.displayName,
      destinations := if Masks(mask, "destinations") then req.destinations else stored.destinations,
      mediations := if Masks(mask, "mediations") then req.mediations else stored.mediations,
      cryptoKeyName := if Masks(mask, "crypto_key_name") then req.cryptoKeyName else stored.cryptoKeyName,
      inputPayloadFormat := if Masks(mask, "input_payload_format") then req.inputPayloadFormat else stored.inputPayloadFormat,
      loggingConfig := if Masks(mask, "logging_config") then req.loggingConfig else stored.loggingConfig,
      retryPolicy := if Masks(mask, "retry_policy") then req.retryPolicy else stored.retryPolicy)
  }

  function Updated<L, S, P>(stored: Fields<L, S, P>, req: Fields<L, S, P>, mask: FieldMask, stamp: Stamp): Fields<L, S, P> {
    Merged(stored, req, mask).(updateTime := stamp.now, etag := stamp.etag)
  }

  /**
   Two masks do the same to every pipeline exactly when they cover the same mutable fields, so nil, ["*"] and every
   arrangement of all nine paths agree.
   */
  lemma MasksAgreeIff(a: FieldMask, b: FieldMask)
    ensures (forall stored: Pipeline, req, stamp :: Updated(stored, req, a, stamp) == Updated(stored, req, b, stamp))
            <==> (forall f :: f in MUTABLE ==> (Masks(a, f) <==> Masks(b, f)))
  {
    if forall stored: Pipeline, req, stamp :: Updated(stored, req, a, stamp) == Updated(stored, req, b, stamp) {
      var blank: Pipeline := Fields("", "", "", 0, 0, map[], map[], "", [], [], "", None, None, None);
      var full: Pipeline := Fields("", "", "", 0, 0, map["k" := "v"], map["k" := "v"], "d", ["u"], ["m"], "c", Some("i"), Some("l"), Some("r"));
      assert "k" in full.labels && "k" !in blank.labels;
      assert Updated(blank, full, a, Stamp(0, "", "")) == Updated(blank, full, b, Stamp(0, "", ""));
    }
  }

  /** Merging one more path into what the earlier ones made. */
  lemma MergedNext<L, S, P>(stored: Fields<L, S, P>, req: Fields<L, S, P>, paths: seq<string>, i: nat)
    requires i < |paths|
    ensures Merged(Merged(stored, req, Some(paths[..i])), req, Some([paths[i]])) == Merged(stored, req, Some(paths[..i + 1]))
  {
    forall f ensures Masks(Some(paths[..i + 1]), f) <==> Masks(Some(paths[..i]), f) || Masks(Some([paths[i]]), f) {
      MasksGrow(paths, i, f);
    }
  }

  type References = Fields<Cell?<map<string, string>>, Cell?<seq<string>>, Cell?<string>>

  /** A Pipeline message in memory. */
  class PipelineMessage {
    var name: string
    var uid: string
    var etag: string
    var createTime: int
    var updateTime: int
    var labels: Cell?<map<string, string>>
    var annotations: Cell?<map<string, string>>
    var displayName: string
    var destinations: Cell?<seq<string>>
    var mediations: Cell?<seq<string>>
    var cryptoKeyName: string
    var inputPayloadFormat: Cell?<string>
    var loggingConfig: Cell?<string>
    var retryPolicy: Cell?<string>

    /** The fields as they are, sub-messages by reference. */
    function Refs(): References
      reads this
    {
      Fields(name, uid, etag, createTime, updateTime, labels, annotations, displayName, destinations, mediations,
             cryptoKeyName, inputPayloadFormat, loggingConfig, retryPolicy)
    }

    function Value(): Pipeline
      reads this, labels, annotations, destinations, mediations, inputPayloadFormat, loggingConfig, retryPolicy
    {
      Deep(Refs())
    }

    constructor (refs: References)
      ensures Refs() == refs
    {
      name, uid, etag, createTime, updateTime := refs.name, refs.uid, refs.etag, refs.createTime, refs.updateTime;
      labels, annotations, displayName, cryptoKeyName := refs.labels, refs.annotations, refs.displayName, refs.cryptoKeyName;
      destinations, mediations, inputPayloadFormat := refs.destinations, refs.mediations, refs.inputPayloadFormat;
      loggingConfig, retryPolicy := refs.loggingConfig, refs.retryPolicy;
    }
  }

  /** Every reference replaced by one to a copy. */
  method CloneRefs(refs: References) returns (copies: References)
    ensures Deep(copies) == Deep(refs) && AreFresh(copies)
  {
    var labels := CloneCell(refs.labels);
    var annotations := CloneCell(refs.annotations);
    var destinations := CloneCell(refs.destinations);
    var mediations := CloneCell(refs.mediations);
    var inputPayloadFormat := CloneCell(refs.inputPayloadFormat);
    var loggingConfig := CloneCell(refs.loggingConfig);
    var retryPolicy := CloneCell(refs.retryPolicy);
    copies := refs.(labels := labels, annotations := annotations, destinations := destinations, mediations := mediations,
                    inputPayloadFormat := inputPayloadFormat, loggingConfig := loggingConfig, retryPolicy := retryPolicy);
  }

  /** cloneProto: a deep copy. */
  method CloneMessage(m: PipelineMessage) returns (copy: PipelineMessage)
    ensures DeeplyFresh(copy) && copy.Value() == m.Value()
  {
    ghost var value := m.Value();
    var copies := CloneRefs(m.Refs());
    assert Deep(copies) == value && m.Value() == value;
    copy := new PipelineMessage(copies);
    assert Deep(copies) == value && m.Value() == value;
  }

  function Optional(c: Cell?<string>): Option<string>
    reads c
  {
    if c == null then None else Some(c.value)
  }

  function Deep(refs: References): Pipeline
    reads refs.labels, refs.annotations, refs.destinations, refs.mediations
    reads refs.inputPayloadFormat, refs.loggingConfig, refs.retryPolicy
  {
    Fields(refs.name, refs.uid, refs.etag, refs.createTime, refs.updateTime,
           Read(refs.labels, map[]), Read(refs.annotations, map[]), refs.displayName,
           Read(refs.destinations, []), Read(refs.mediations, []), refs.cryptoKeyName,
           Optional(refs.inputPayloadFormat), Optional(refs.loggingConfig), Optional(refs.retryPolicy))
  }

  /** Everything referred to was allocated since the old state. */
  twostate predicate AreFresh(new refs: References) {
    && (refs.labels != null ==> fresh(refs.labels)) && (refs.annotations != null ==> fresh(refs.annotations))
    && (refs.destinations != null ==> fresh(refs.destinations)) && (refs.mediations != null ==> fresh(refs.mediations))
    && (refs.inputPayloadFormat != null ==> fresh(refs.inputPayloadFormat))
    && (refs.loggingConfig != null ==> fresh(refs.loggingConfig)) && (refs.retryPolicy != null ==> fresh(refs.retryPolicy))
  }

  twostate predicate DeeplyFresh(new m: PipelineMessage)
    reads m
  {
    fresh(m) && AreFresh(m.Refs())
  }

  /** The assignments made for "*" and for a nil mask: sub-messages by reference. */
  method CopyMutable(stored: PipelineMessage, pl: PipelineMessage)
    modifies stored
    ensures stored.Refs() == Merged(old(stored.Refs()), old(pl.Refs()), None)
  {
    stored.labels := pl.labels;
    stored.annotations := pl.annotations;
    stored.displayName := pl.displayName;
    stored.destinations := pl.destinations;
    stored.mediations := pl.mediations;
    stored.cryptoKeyName := pl.cryptoKeyName;
    stored.inputPayloadFormat := pl.inputPayloadFormat;
    stored.loggingConfig := pl.loggingConfig;
    stored.retryPolicy := pl.retryPolicy;
  }

  /** What a single path does, path by path: the text of the switch. */
  lemma MergedByPath<L, S, P>(v: Fields<L, S, P>, pl: Fields<L, S, P>, path: string)
    ensures Merged(v, pl, Some([path])) ==
            match path
            case "*" => v.(labels := pl.labels, annotations := pl.annotations, displayName := pl.displayName,
                           destinations := pl.destinations, mediations := pl.mediations, cryptoKeyName := pl.cryptoKeyName,
                           inputPayloadFormat := pl.inputPayloadFormat, loggingConfig := pl.loggingConfig, retryPolicy := pl.retryPolicy)
            case "labels" => v.(labels := pl.labels)
            case "annotations" => v.(annotations := pl.annotations)
            case "display_name" => v.(displayName := pl.displayName)
            case "destinations" => v.(destinations := pl.destinations)
            case "mediations" => v.(mediations := pl.mediations)
            case "crypto_key_name" => v.(cryptoKeyName := pl.cryptoKeyName)
            case "input_payload_format" => v.(inputPayloadFormat := pl.inputPayloadFormat)
            case "logging_config" => v.(loggingConfig := pl.loggingConfig)
            case "retry_policy" => v.(retryPolicy := pl.retryPolicy)
            case _ => v
  {
    DistinctPaths();
    SinglePath(path);
  }

  /** What an update without a mask writes: all nine. */
  lemma MergedByNil<L, S, P>(v: Fields<L, S, P>, pl: Fields<L, S, P>)
    ensures Merged(v, pl, None) ==
            v.(labels := pl.labels, annotations := pl.annotations, displayName := pl.displayName,
               destinations := pl.destinations, mediations := pl.mediations, cryptoKeyName := pl.cryptoKeyName,
               inputPayloadFormat := pl.inputPayloadFormat, loggingConfig := pl.loggingConfig, retryPolicy := pl.retryPolicy)
  {
  }

  /** An update stamps the pipeline, and does not touch what identifies it. */
  lemma UpdateStamps(stored: Pipeline, req: Pipeline, mask: FieldMask, stamp: Stamp)
    ensures var updated := Updated(stored, req, mask, stamp);
            && updated.etag == stamp.etag && updated.updateTime == stamp.now
            && updated.name == stored.name && updated.uid == stored.uid && updated.createTime == stored.createTime
  {
  }

  /** One case of the mask switch: "*" writes the nine mutable fields. */
  method ApplyPath(stored: PipelineMessage, pl: PipelineMessage, path: string)
    modifies stored
    ensures stored.Refs() == Merged(old(stored.Refs()), old(pl.Refs()), Some([path]))
  {
    MergedByPath(stored.Refs(), pl.Refs(), path);
    match path {
      case "*" => CopyMutable(stored, pl);
      case "labels" => stored.labels := pl.labels;
      case "annotations" => stored.annotations := pl.annotations;
      case "display_name" => stored.displayName := pl.displayName;
      case "destinations" => stored.destinations := pl.destinations;
      case "mediations" => stored.mediations := pl.mediations;
      case "crypto_key_name" => stored.cryptoKeyName := pl.cryptoKeyName;
      case "input_payload_format" => stored.inputPayloadFormat := pl.inputPayloadFormat;
      case "logging_config" => stored.loggingConfig := pl.loggingConfig;
      case "retry_policy" => stored.retryPolicy := pl.retryPolicy;
      case _ =>
    }
  }

  lemma DistinctPaths()
    ensures |"*"| == 1 && |"labels"| == 6 && |"annotations"| == 11 && |"mediations"| == 10
    ensures |"display_name"| == |"destinations"| == |"retry_policy"| == 12
    ensures "display_name"[1] == 'i' && "destinations"[1] == 'e' && "retry_policy"[0] == 'r'
    ensures "display_name"[0] == "destinations"[0] == 'd'
    ensures |"crypto_key_name"| == 15 && |"input_payload_format"| == 20 && |"logging_config"| == 14
  {
  }

  lemma DeepUpdates(stored: References, pl: References, mask: FieldMask, stamp: Stamp)
    ensures Deep(Updated(stored, pl, mask, stamp)) == Updated(Deep(stored), Deep(pl), mask, stamp)
  {
  }

  /** The mask part of UpdatePipeline. */
  method ApplyMask(stored: PipelineMessage, pl: PipelineMessage, mask: FieldMask)
    modifies stored
    ensures stored.Refs() == Merged(old(stored.Refs()), old(pl.Refs()), mask)
  {
    if mask.Some? {
      var paths := mask.value;
      for i := 0 to |paths|
        invariant stored.Refs() == Merged(old(stored.Refs()), old(pl.Refs()), Some(paths[..i]))
        invariant pl.Refs() == old(pl.Refs())
      {
        ApplyPath(stored, pl, paths[i]);
        MergedNext(old(stored.Refs()), old(pl.Refs()), paths, i);
      }
      assert paths[..|paths|] == paths;
    } else {
      CopyMutable(stored, pl);
    }
  }

  /**
   UpdatePipeline once the stored message is found. The two messages then share exactly the sub-messages that the mask
   covers.
   */
  method UpdateInPlace(stored: PipelineMessage, pl: PipelineMessage, mask: FieldMask, stamp: Stamp)
    modifies stored
    ensures stored.Refs() == Updated(old(stored.Refs()), old(pl.Refs()), mask, stamp)
    ensures stored.Value() == Updated(old(stored.Value()), old(pl.Value()), mask, stamp)
  {
    ghost var before, request := stored.Refs(), pl.Refs();
    ApplyMask(stored, pl, mask);
    stored.updateTime := stamp.now;
    stored.etag := stamp.etag;
    DeepUpdates(before, request, mask, stamp);
  }

  class PipelineStore {
    var pipelines: map<string, PipelineMessage>

    ghost predicate Valid()
      reads this, pipelines.Values
    {
      forall n :: n in pipelines ==> pipelines[n].name == n
    }

    /** Writes only the stored message, in place; the result is a deep copy. */
    method UpdatePipeline(pl: PipelineMessage, mask: FieldMask, stamp: Stamp) returns (r: Result<PipelineMessage>)
      requires Valid()
      modifies if pl.name in pipelines then {pipelines[pl.name]} else {}
      ensures Valid() && pipelines == old(pipelines)
      ensures if old(pl.name) !in pipelines then r == Err(NotFound)
              else
                var stored := pipelines[old(pl.name)];
                && stored.Refs() == Updated(old(stored.Refs()), old(pl.Refs()), mask, stamp)
                && stored.Value() == Updated(old(stored.Value()), old(pl.Value()), mask, stamp)
                && r.Ok? && DeeplyFresh(r.value) && r.value.Value() == stored.Value()
    {
      if pl.name !in pipelines {
        return Err(NotFound);
      }
      var stored := pipelines[pl.name];
      UpdateInPlace(stored, pl, mask, stamp);
      var copy := CloneMessage(stored);
      return Ok(copy);
    }
  }
}
