/** The record of a file operation that travels between peers. */
module Operations {
  import opened VectorClocks

  datatype Option<T> = None | Some(value: T)

  datatype Kind = Create | Update | Delete | Rename

  /** Only the fields that the modelled code reads or writes. */
  datatype SyncOperation = SyncOperation(
    id: string, kind: Kind, path: string, fileID: string, checksum: string, size: int,
    peerID: PeerID, compressed: bool, clock: Option<Clock>)
}
