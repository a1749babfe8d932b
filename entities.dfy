/** The values the editor window handles: scene assets, events, listeners and
    field references, with Unity's nullable object references as an Option. */
module Entities {

  /** A possibly-null Unity object reference. */
  datatype Option<+T> = None | Some(value: T)

  /** How one editor callback ended: normally, or with a NullReferenceException
      raised by a dereference the source does not guard. */
  datatype Outcome = Completed | NullReference

  /** A scene asset, identified by its asset id; `name` is the asset's name. */
  datatype SceneAsset = SceneAsset(id: nat, name: string)

  /** A GameEvent asset. */
  datatype GameEvent = GameEvent(id: nat, name: string)

  /** The manager's per-event record (the value type of its Events dictionary). */
  datatype EventData = EventData(event: GameEvent)

  /** A GameEventListener component. */
  datatype Listener = Listener(id: nat, name: string)

  /** A MonoBehaviour that holds a field of event type. */
  datatype Behaviour = Behaviour(id: nat, name: string)

  /** An EventReference: the behaviour holding the field and the field's name. */
  datatype EventReference = EventReference(reference: Behaviour, field: string)

  function ListenerName(l: Listener): string { l.name }

  function ReferenceName(r: EventReference): string { r.reference.name }
}
