/**
 * The second copy of the pretty printer, kept at the top of the repository with the same text as
 * the one inside the package. It is modelled by the package's definitions.
 */
module LegacyPrettyXml {
  import opened Tree
  import PrettyXml

  /** Writes exactly what the package's `WritePrettyXMLElement` writes. */
  method WritePrettyXMLElement(oss: PrettyXml.OutputStream, e: Element, indent: nat)
    modifies oss
    ensures oss.value == old(oss.value) + PrettyXml.Render(e, indent)
  {
    PrettyXml.WritePrettyXMLElement(oss, e, indent);
  }
}
