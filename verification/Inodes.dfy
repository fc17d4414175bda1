/** What the inode and cache code has in common: the kinds of inode, and what a PING tells. */
module Inodes {
  import opened Bytes

  datatype Kind = Root | ControlDir | StatusFile | SeedsFile | NamespaceDir | RemoteDir | RemoteFile

  /** A PING that failed, leaving the mount with some learned generation, or the generation it reported. */
  datatype Ping = PingFailed(errno: nat, learned: u64) | Reported(generation: u64)
}
