/** The nodes of the network. */
module Nodes {

  /** A node is its name and stands for its peer ID too; the empty string is
      Go's zero value for both. */
  type Node = string
}
